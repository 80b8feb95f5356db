/** Collision-free names for generated types: names shared within a scope, or reserved, are replaced
    by the first free one of a numbered series. */
module Naming {

  type Name = string

  const RUNTIME_NAMES: set<Name> := {
    "ArrayView", "BoolArray", "EnumValue", "FieldDecode", "FieldView", "MapView", "MessageView", "ScalarArray",
    "StringView", "ViewArray", "ViewMap", "Option", "Result", "Box", "Vec", "String"
  }

  /** The names every generated file imports or relies on. */
  lemma RuntimeListed(name: Name)
    ensures name in RUNTIME_NAMES <==>
              || name in ["Option", "Result", "Box", "Vec", "String", "EnumValue", "FieldDecode"]
              || name in ["ArrayView", "BoolArray", "FieldView", "MapView", "MessageView", "ScalarArray"]
              || name in ["StringView", "ViewArray", "ViewMap"]
  {
  }

  // ----- the series of candidates

  function Digit(d: nat): char
    requires d < 10
  {
    "0123456789"[d]
  }

  function Decimal(n: nat): (s: string)
    ensures s != ""
  {
    if n < 10 then [Digit(n)] else Decimal(n / 10) + [Digit(n % 10)]
  }

  function Candidate(base: Name, suffix: nat): Name {
    base + "_" + Decimal(suffix)
  }

  /** The number a string of decimal digits stands for. */
  ghost function NumberOf(s: string): int {
    if s == "" then 0 else 10 * NumberOf(s[..|s| - 1]) + (s[|s| - 1] as int - '0' as int)
  }

  /** Candidates are the base, an underscore and the number in plain decimal. */
  lemma CandidateSpelled(base: Name, suffix: nat)
    ensures var name := Candidate(base, suffix);
            && |name| > |base| + 1 && name[..|base|] == base && name[|base|] == '_'
            && (forall i :: |base| < i < |name| ==> '0' <= name[i] <= '9')
            && NumberOf(name[|base| + 1..]) == suffix && (suffix > 0 ==> name[|base| + 1] != '0')
  {
    DecimalSpelled(suffix);
    assert Candidate(base, suffix)[|base| + 1..] == Decimal(suffix);
  }

  lemma DigitSpelled(d: nat)
    requires d < 10
    ensures '0' <= Digit(d) <= '9' && Digit(d) as int == '0' as int + d
  {
  }

  lemma {:induction false} DecimalSpelled(n: nat)
    ensures var s := Decimal(n);
            (forall i :: 0 <= i < |s| ==> '0' <= s[i] <= '9') && NumberOf(s) == n && (n > 0 ==> s[0] != '0')
  {
    DigitSpelled(n % 10);
    if n >= 10 {
      hide Digit;
      DecimalSpelled(n / 10);
      var s, front := Decimal(n), Decimal(n / 10);
      assert s == front + [Digit(n % 10)];
      assert s[..|s| - 1] == front && s[|s| - 1] == Digit(n % 10);
    } else {
      assert [Digit(n)][..0] == "";
    }
  }

  /** The names tried for a base: itself, then the numbered ones from 2 on. */
  function Series(base: Name, k: nat): Name {
    if k <= 1 then base else Candidate(base, k)
  }

  lemma DigitInjective(a: nat, b: nat)
    requires a < 10 && b < 10 && Digit(a) == Digit(b)
    ensures a == b
  {
  }

  lemma {:induction false} DecimalInjective(a: nat, b: nat)
    requires Decimal(a) == Decimal(b)
    ensures a == b
    decreases a
  {
    var s, t := Decimal(a), Decimal(b);
    assert s[|s| - 1] == Digit(a % 10) && t[|t| - 1] == Digit(b % 10);
    DigitInjective(a % 10, b % 10);
    if a >= 10 && b >= 10 {
      assert s[..|s| - 1] == Decimal(a / 10) && t[..|t| - 1] == Decimal(b / 10);
      DecimalInjective(a / 10, b / 10);
    }
  }

  lemma CandidatesDiffer(base: Name, a: nat, b: nat)
    requires Candidate(base, a) == Candidate(base, b)
    ensures a == b
  {
    hide Decimal;
    var head := base + "_";
    assert Decimal(a) == Candidate(base, a)[|head|..] && Decimal(b) == Candidate(base, b)[|head|..];
    DecimalInjective(a, b);
  }

  lemma SubsetSize<T>(small: set<T>, big: set<T>)
    requires small <= big
    ensures |small| <= |big|
  {
    if small != {} {
      var x :| x in small;
      SubsetSize(small - {x}, big - {x});
    }
  }

  /** A name of the series, behind reserved ones only. */
  ghost predicate Follows(scope: string, base: Name, name: Name, reserved: set<(string, Name)>) {
    exists k {:trigger Series(base, k)} ::
      k >= 1 && name == Series(base, k) && forall j :: 1 <= j < k ==> (scope, Series(base, j)) in reserved
  }

  /** Reserves the first name of the series that is free in the scope. The series never repeats, so
      after as many misses as there are reserved names it must leave them. */
  method ReserveFree(scope: string, base: Name, reserved: set<(string, Name)>)
    returns (name: Name, reserved': set<(string, Name)>)
    ensures (scope, name) !in reserved && reserved' == reserved + {(scope, name)}
    ensures name == base || exists k :: k >= 2 && name == Candidate(base, k)
    ensures (scope, base) !in reserved ==> name == base
    ensures name != base ==> forall k :: 2 <= k && name == Candidate(base, k) ==> forall j :: 2 <= j < k ==>
        (scope, Candidate(base, j)) in reserved
    ensures Follows(scope, base, name, reserved)
  {
    hide Candidate;
    name := base;
    var suffix: nat := 2;
    ghost var tried: set<(string, Name)> := {};
    while (scope, name) in reserved
      invariant suffix >= 2 && (suffix == 2 ==> tried == {})
      invariant if suffix == 2 then name == base else name == Candidate(base, suffix - 1)
      invariant suffix > 2 ==> (scope, base) in reserved && (scope, base) in tried
      invariant tried <= reserved && forall t :: t in tried ==>
          t == (scope, base) || exists j :: 2 <= j < suffix - 1 && t == (scope, Candidate(base, j))
      invariant forall j :: 2 <= j < suffix - 1 ==> (scope, Candidate(base, j)) in reserved
      decreases |reserved| - |tried|
    {
      if suffix > 2 { NewCandidate(scope, base, suffix - 1, tried); }
      SubsetSize(tried + {(scope, name)}, reserved);
      tried := tried + {(scope, name)};
      name := Candidate(base, suffix);
      suffix := suffix + 1;
    }
    reserved' := reserved + {(scope, name)};
    assert name == Series(base, if suffix == 2 then 1 else suffix - 1);
    if name != base {
      forall k | 2 <= k && name == Candidate(base, k) ensures k == suffix - 1 {
        CandidatesDiffer(base, k, suffix - 1);
      }
    }
  }

  lemma NewCandidate(scope: string, base: Name, suffix: nat, tried: set<(string, Name)>)
    requires suffix >= 2
    requires forall t :: t in tried ==>
        t == (scope, base) || exists j :: 2 <= j < suffix && t == (scope, Candidate(base, j))
    ensures (scope, Candidate(base, suffix)) !in tried
  {
    assert |Candidate(base, suffix)| > |base|;
    if (scope, Candidate(base, suffix)) in tried {
      var j :| 2 <= j < suffix && Candidate(base, suffix) == Candidate(base, j);
      CandidatesDiffer(base, suffix, j);
    }
  }

  // ----- one pass over a scope

  ghost predicate SameKeys<V, W>(a: map<Name, V>, b: map<Name, W>) {
    a.Keys == b.Keys
  }

  /** No other type of the scope has this default, and it is not taken. */
  ghost predicate Undisputed(scopes: map<Name, string>, defaults: map<Name, Name>, taken: set<(string, Name)>,
                             full: Name)
    requires SameKeys(scopes, defaults) && full in defaults
  {
    && (scopes[full], defaults[full]) !in taken
    && forall other :: other in defaults && other != full ==>
        (scopes[other], defaults[other]) != (scopes[full], defaults[full])
  }

  ghost predicate Distinct(scopes: map<Name, string>, names: map<Name, Name>)
    requires SameKeys(scopes, names)
  {
    forall f, g :: f in names && g in names && f != g ==> (scopes[f], names[f]) != (scopes[g], names[g])
  }

  ghost predicate Avoids(scopes: map<Name, string>, names: map<Name, Name>, taken: set<(string, Name)>)
    requires SameKeys(scopes, names)
  {
    forall f :: f in names ==> (scopes[f], names[f]) !in taken
  }

  /** Names so far: renamed types have fresh reserved names, all others their defaults. */
  ghost predicate Naming(scopes: map<Name, string>, defaults: map<Name, Name>, names: map<Name, Name>,
                         renamed: set<Name>, initial: set<(string, Name)>, reserved: set<(string, Name)>)
  {
    && SameKeys(scopes, defaults) && SameKeys(names, defaults) && renamed <= names.Keys && initial <= reserved
    && (forall f :: f in names && f !in renamed ==> names[f] == defaults[f])
    && (forall f :: f in renamed ==> (scopes[f], names[f]) in reserved && (scopes[f], names[f]) !in initial)
    && (forall f, g :: f in renamed && g in renamed && f != g ==> (scopes[f], names[f]) != (scopes[g], names[g]))
    && (forall t :: t in reserved ==> t in initial || exists g :: g in renamed && t == (scopes[g], names[g]))
  }

  /** Renamed types have the first free name of their series. */
  ghost predicate InSeries(scopes: map<Name, string>, bases: map<Name, Name>, names: map<Name, Name>,
                           renamed: set<Name>, initial: set<(string, Name)>) {
    && SameKeys(scopes, names) && SameKeys(bases, names) && renamed <= names.Keys
    && forall f :: f in renamed ==> FirstFree(scopes, names, initial, f, bases[f])
  }

  /** The name is one of the series, and all before it are reserved or the name of another type. */
  ghost predicate FirstFree(scopes: map<Name, string>, names: map<Name, Name>, initial: set<(string, Name)>, full: Name,
                            base: Name)
    requires SameKeys(scopes, names) && full in names
  {
    exists k {:trigger Series(base, k)} :: k >= 1 && names[full] == Series(base, k)
      && forall j :: 1 <= j < k ==> Occupied(scopes, names, initial, scopes[full], Series(base, j))
  }

  ghost predicate Occupied(scopes: map<Name, string>, names: map<Name, Name>, initial: set<(string, Name)>,
                           scope: string, name: Name)
    requires SameKeys(scopes, names)
  {
    (scope, name) in initial || exists g :: g in names && scopes[g] == scope && names[g] == name
  }

  lemma SeriesStep(scopes: map<Name, string>, defaults: map<Name, Name>, bases: map<Name, Name>, names: map<Name, Name>,
                   renamed: set<Name>, initial: set<(string, Name)>, reserved: set<(string, Name)>, full: Name,
                   name: Name)
    requires Naming(scopes, defaults, names, renamed, initial, reserved)
    requires InSeries(scopes, bases, names, renamed, initial)
    requires full in names && full !in renamed && (scopes[full], name) !in reserved
    requires (scopes[full], defaults[full]) in initial
    requires Follows(scopes[full], bases[full], name, reserved)
    ensures InSeries(scopes, bases, names[full := name], renamed + {full}, initial)
  {
    hide Series;
    var names' := names[full := name];
    forall f | f in renamed + {full} ensures FirstFree(scopes, names', initial, f, bases[f]) {
      if f == full {
        var k :| k >= 1 && name == Series(bases[full], k)
          && forall j :: 1 <= j < k ==> (scopes[full], Series(bases[full], j)) in reserved;
        forall j | 1 <= j < k ensures Occupied(scopes, names', initial, scopes[full], Series(bases[full], j)) {
          OccupiedBy(scopes, defaults, names, renamed, initial, reserved, scopes[full], Series(bases[full], j));
          StaysOccupied(scopes, defaults, names, initial, full, name, scopes[full], Series(bases[full], j), renamed,
                        reserved);
        }
      } else {
        assert FirstFree(scopes, names, initial, f, bases[f]);
        var k :| k >= 1 && names[f] == Series(bases[f], k)
          && forall j :: 1 <= j < k ==> Occupied(scopes, names, initial, scopes[f], Series(bases[f], j));
        forall j | 1 <= j < k ensures Occupied(scopes, names', initial, scopes[f], Series(bases[f], j)) {
          StaysOccupied(scopes, defaults, names, initial, full, name, scopes[f], Series(bases[f], j), renamed,
                        reserved);
        }
      }
    }
  }

  lemma OccupiedBy(scopes: map<Name, string>, defaults: map<Name, Name>, names: map<Name, Name>, renamed: set<Name>,
                   initial: set<(string, Name)>, reserved: set<(string, Name)>, scope: string, name: Name)
    requires Naming(scopes, defaults, names, renamed, initial, reserved) && (scope, name) in reserved
    ensures Occupied(scopes, names, initial, scope, name)
  {
  }

  /** Giving up a default frees nothing: it is reserved from the start. */
  lemma StaysOccupied(scopes: map<Name, string>, defaults: map<Name, Name>, names: map<Name, Name>,
                      initial: set<(string, Name)>, full: Name, name: Name, scope: string, other: Name,
                      renamed: set<Name>, reserved: set<(string, Name)>)
    requires Naming(scopes, defaults, names, renamed, initial, reserved) && full in names && full !in renamed
    requires (scopes[full], defaults[full]) in initial && Occupied(scopes, names, initial, scope, other)
    ensures Occupied(scopes, names[full := name], initial, scope, other)
  {
    if (scope, other) !in initial {
      var g :| g in names && scopes[g] == scope && names[g] == other;
      assert g != full && names[full := name][g] == other;
    }
  }

  lemma NamingStep(scopes: map<Name, string>, defaults: map<Name, Name>, names: map<Name, Name>, renamed: set<Name>,
                   initial: set<(string, Name)>, reserved: set<(string, Name)>, full: Name, name: Name)
    requires Naming(scopes, defaults, names, renamed, initial, reserved)
    requires full in names && full !in renamed && (scopes[full], name) !in reserved
    ensures Naming(scopes, defaults, names[full := name], renamed + {full}, initial, reserved + {(scopes[full], name)})
  {
  }

  /** Renames every type of one group. */
  method RenameGroup(types: set<Name>, scope: string, scopes: map<Name, string>, bases: map<Name, Name>,
                     names: map<Name, Name>, reserved: set<(string, Name)>, ghost defaults: map<Name, Name>,
                     ghost renamed: set<Name>, ghost initial: set<(string, Name)>)
    returns (names': map<Name, Name>, reserved': set<(string, Name)>)
    requires Naming(scopes, defaults, names, renamed, initial, reserved) && SameKeys(bases, defaults)
    requires InSeries(scopes, bases, names, renamed, initial)
    requires types <= names.Keys && types !! renamed && forall f :: f in types ==> scopes[f] == scope
    requires forall f :: f in types ==> (scopes[f], defaults[f]) in initial
    ensures Naming(scopes, defaults, names', renamed + types, initial, reserved')
    ensures InSeries(scopes, bases, names', renamed + types, initial)
  {
    GroupKeys(scopes, defaults, bases, names, renamed, initial, reserved);
    hide Naming, InSeries, Follows, Undisputed;
    names', reserved' := names, reserved;
    var rest := types;
    ghost var done := renamed;
    assert done == renamed + types - rest;
    while rest != {}
      invariant rest <= types && names'.Keys == names.Keys && done == renamed + types - rest
      invariant Naming(scopes, defaults, names', done, initial, reserved')
      invariant InSeries(scopes, bases, names', done, initial)
      decreases rest
    {
      var full :| full in rest;
      var name;
      ghost var before := reserved';
      name, reserved' := ReserveFree(scope, bases[full], reserved');
      RenameStep(scopes, defaults, bases, names', done, initial, before, full, name);
      names' := names'[full := name];
      OneLess(renamed + types, rest, full);
      done, rest := done + {full}, rest - {full};
    }
    assert done == renamed + types;
  }

  lemma OneLess<T>(all: set<T>, rest: set<T>, x: T)
    requires x in all && x in rest
    ensures all - (rest - {x}) == all - rest + {x}
  {
  }

  lemma RenameStep(scopes: map<Name, string>, defaults: map<Name, Name>, bases: map<Name, Name>, names: map<Name, Name>,
                   renamed: set<Name>, initial: set<(string, Name)>, reserved: set<(string, Name)>, full: Name,
                   name: Name)
    requires Naming(scopes, defaults, names, renamed, initial, reserved)
    requires InSeries(scopes, bases, names, renamed, initial)
    requires full in names && full !in renamed && (scopes[full], name) !in reserved
    requires (scopes[full], defaults[full]) in initial && Follows(scopes[full], bases[full], name, reserved)
    ensures Naming(scopes, defaults, names[full := name], renamed + {full}, initial, reserved + {(scopes[full], name)})
    ensures InSeries(scopes, bases, names[full := name], renamed + {full}, initial)
  {
    hide Follows;
    SeriesStep(scopes, defaults, bases, names, renamed, initial, reserved, full, name);
    NamingStep(scopes, defaults, names, renamed, initial, reserved, full, name);
  }

  lemma GroupKeys(scopes: map<Name, string>, defaults: map<Name, Name>, bases: map<Name, Name>, names: map<Name, Name>,
                  renamed: set<Name>, initial: set<(string, Name)>, reserved: set<(string, Name)>)
    requires Naming(scopes, defaults, names, renamed, initial, reserved) && SameKeys(bases, defaults)
    ensures names.Keys == defaults.Keys == bases.Keys == scopes.Keys && initial <= reserved
  {
  }

  /** Groups types by scope and default name. A group of one keeps a default that is not taken;
      every other type gets a free name of its own series. */
  method Disambiguate(scopes: map<Name, string>, defaults: map<Name, Name>, bases: map<Name, Name>,
                      taken: set<(string, Name)>)
    returns (names: map<Name, Name>)
    requires SameKeys(scopes, defaults) && SameKeys(bases, defaults)
    ensures SameKeys(names, defaults) && SameKeys(scopes, names)
    ensures Distinct(scopes, names) && Avoids(scopes, names, taken)
    ensures forall f :: f in defaults && Undisputed(scopes, defaults, taken, f) ==> names[f] == defaults[f]
    ensures forall f :: f in defaults && !Undisputed(scopes, defaults, taken, f) ==>
        FirstFree(scopes, names, Reserved(scopes, defaults, taken), f, bases[f])
  {
    hide Naming, InSeries, FirstFree;
    var groups := set f | f in defaults :: (scopes[f], defaults[f]);
    var reserved := groups + taken;
    ghost var initial, renamed: set<Name> := reserved, {};
    names := defaults;
    NothingRenamed(scopes, defaults, bases, reserved);
    while groups != {}
      invariant Naming(scopes, defaults, names, renamed, initial, reserved)
      invariant InSeries(scopes, bases, names, renamed, initial)
      invariant forall f :: f in defaults && (scopes[f], defaults[f]) in groups ==> f !in renamed
      invariant forall f :: f in renamed ==> f in defaults && !Undisputed(scopes, defaults, taken, f)
      invariant forall f :: f in defaults && (scopes[f], defaults[f]) !in groups && f !in renamed ==>
          Undisputed(scopes, defaults, taken, f)
      decreases groups
    {
      var group :| group in groups;
      groups := groups - {group};
      var types := set f | f in defaults && (scopes[f], defaults[f]) == group;
      NamingKeys(scopes, defaults, names, renamed, initial, reserved);
      if |types| < 2 && group !in taken {
        AloneIsUndisputed(scopes, defaults, taken, group, types);
      } else {
        SharedIsDisputed(scopes, defaults, taken, group, types);
        names, reserved := RenameGroup(types, group.0, scopes, bases, names, reserved, defaults, renamed, initial);
        renamed := renamed + types;
      }
    }
    NamingKeys(scopes, defaults, names, renamed, initial, reserved);
    AllDistinct(scopes, defaults, names, renamed, initial, reserved, taken);
    assert initial == Reserved(scopes, defaults, taken);
    AllFirstFree(scopes, bases, names, renamed, initial);
  }

  lemma AllFirstFree(scopes: map<Name, string>, bases: map<Name, Name>, names: map<Name, Name>, renamed: set<Name>,
                     initial: set<(string, Name)>)
    requires InSeries(scopes, bases, names, renamed, initial)
    ensures SameKeys(scopes, names) && SameKeys(bases, names)
    ensures forall f :: f in renamed ==> f in names && FirstFree(scopes, names, initial, f, bases[f])
  {
    hide FirstFree;
  }

  /** Reserved from the start: what is taken, and every default. */
  ghost function Reserved(scopes: map<Name, string>, defaults: map<Name, Name>, taken: set<(string, Name)>)
    : set<(string, Name)>
    requires SameKeys(scopes, defaults)
  {
    (set f | f in defaults :: (scopes[f], defaults[f])) + taken
  }

  lemma NothingRenamed(scopes: map<Name, string>, defaults: map<Name, Name>, bases: map<Name, Name>,
                       reserved: set<(string, Name)>)
    requires SameKeys(scopes, defaults) && SameKeys(bases, defaults)
    ensures Naming(scopes, defaults, defaults, {}, reserved, reserved)
    ensures InSeries(scopes, bases, defaults, {}, reserved)
  {
  }

  lemma NamingKeys(scopes: map<Name, string>, defaults: map<Name, Name>, names: map<Name, Name>, renamed: set<Name>,
                   initial: set<(string, Name)>, reserved: set<(string, Name)>)
    requires Naming(scopes, defaults, names, renamed, initial, reserved)
    ensures SameKeys(names, defaults) && SameKeys(scopes, names)
    ensures forall f :: f in names && f !in renamed ==> names[f] == defaults[f]
  {
  }

  lemma AtMostOne<T>(s: set<T>, a: T, b: T)
    requires |s| < 2 && a in s && b in s
    ensures a == b
  {
    if a != b { SubsetSize({a, b}, s); }
  }

  lemma AloneIsUndisputed(scopes: map<Name, string>, defaults: map<Name, Name>, taken: set<(string, Name)>,
                          group: (string, Name), types: set<Name>)
    requires SameKeys(scopes, defaults) && types == (set f | f in defaults && (scopes[f], defaults[f]) == group)
    requires |types| < 2 && group !in taken
    ensures forall f :: f in types ==> Undisputed(scopes, defaults, taken, f)
  {
    forall f, other | f in types && other in defaults && other != f
        ensures (scopes[other], defaults[other]) != (scopes[f], defaults[f]) {
      if (scopes[other], defaults[other]) == group { AtMostOne(types, f, other); }
    }
  }

  lemma SharedIsDisputed(scopes: map<Name, string>, defaults: map<Name, Name>, taken: set<(string, Name)>,
                         group: (string, Name), types: set<Name>)
    requires SameKeys(scopes, defaults) && types == (set f | f in defaults && (scopes[f], defaults[f]) == group)
    requires |types| >= 2 || group in taken
    ensures forall f :: f in types ==> !Undisputed(scopes, defaults, taken, f)
  {
    forall f | f in types && |types| >= 2 ensures exists other :: other in types && other != f {
      if forall other :: other in types ==> other == f { SubsetSize(types, {f}); }
    }
  }

  lemma AllDistinct(scopes: map<Name, string>, defaults: map<Name, Name>, names: map<Name, Name>, renamed: set<Name>,
                    initial: set<(string, Name)>, reserved: set<(string, Name)>, taken: set<(string, Name)>)
    requires Naming(scopes, defaults, names, renamed, initial, reserved)
    requires forall f :: f in defaults ==> (scopes[f], defaults[f]) in initial
    requires taken <= initial
    requires forall f :: f in defaults && f !in renamed ==> Undisputed(scopes, defaults, taken, f)
    ensures Distinct(scopes, names) && Avoids(scopes, names, taken)
  {
    forall f, g | f in names && g in names && f != g ensures (scopes[f], names[f]) != (scopes[g], names[g]) {
      if f !in renamed && g !in renamed { assert Undisputed(scopes, defaults, taken, f); }
    }
  }

  // ----- the registry

  function TrimDots(full: Name): Name {
    if full != "" && full[0] == '.' then TrimDots(full[1..]) else full
  }

  function Underscored(name: Name): Name {
    seq(|name|, i requires 0 <= i < |name| => if name[i] == '.' then '_' else name[i])
  }

  /** The name of a type inside its package. */
  function Local(full: Name, package: string): Name
    requires package != "" ==> |TrimDots(full)| > |package|
  {
    if package == "" then TrimDots(full) else TrimDots(full)[|package| + 1..]
  }

  /** The outermost component of a package. */
  function Outermost(package: string): string {
    if package == "" || package[0] == '.' then "" else [package[0]] + Outermost(package[1..])
  }

  // The bases of the two series, spelled out for any full name: leading dots, package, local name.

  function ReadonlyBase(full: Name, package: string): Name
    requires package != "" ==> |TrimDots(full)| > |package|
  {
    Underscored(Local(full, package))
  }

  function MutableBase(full: Name): Name {
    Underscored(TrimDots(full)) + "Mutable"
  }

  ghost predicate Dots(s: string) {
    forall i :: 0 <= i < |s| ==> s[i] == '.'
  }

  ghost predicate NoDotInFront(s: string) {
    s != "" ==> s[0] != '.'
  }

  /** The local name with every dot replaced. */
  ghost predicate Spelled(base: Name, local: Name) {
    |base| == |local| && forall i :: 0 <= i < |local| ==> base[i] == if local[i] == '.' then '_' else local[i]
  }

  lemma {:induction false} TrimsDots(dots: string, path: Name)
    requires Dots(dots) && NoDotInFront(path)
    ensures TrimDots(dots + path) == path
  {
    if dots == "" {
      assert dots + path == path;
    } else {
      TrimsDots(dots[1..], path);
      assert (dots + path)[1..] == dots[1..] + path;
    }
  }

  /** The read-only base is the name inside the package, with underscores for dots. */
  lemma ReadonlyBaseSpelled(full: Name, package: string, dots: string, local: Name)
    requires Dots(dots) && NoDotInFront(package) && (package == "" ==> NoDotInFront(local))
    requires full == dots + (if package == "" then local else package + "." + local)
    ensures package != "" ==> |TrimDots(full)| > |package|
    ensures Spelled(ReadonlyBase(full, package), local)
  {
    hide TrimDots, Dots;
    TrimsDots(dots, if package == "" then local else package + "." + local);
    assert package != "" ==> (package + "." + local)[|package| + 1..] == local;
  }

  /** The mutable base is the whole path with underscores for dots, and a suffix. */
  lemma MutableBaseSpelled(full: Name, dots: string, path: Name)
    requires Dots(dots) && NoDotInFront(path) && full == dots + path
    ensures var base := MutableBase(full);
            |base| == |path| + 7 && Spelled(base[..|path|], path) && base[|path|..] == "Mutable"
  {
    hide TrimDots, Dots;
    TrimsDots(dots, path);
  }

  /** The outermost component ends at the first dot. */
  lemma {:induction false} OutermostSpelled(package: string)
    ensures var root := Outermost(package);
            && '.' !in root && |root| <= |package| && package[..|root|] == root
            && (|root| < |package| ==> package[|root|] == '.')
  {
    if package != "" && package[0] != '.' { OutermostSpelled(package[1..]); }
  }

  function PackageScopes(packages: map<Name, string>, types: map<Name, Name>): (scopes: map<Name, string>)
    requires types.Keys <= packages.Keys
    ensures SameKeys(scopes, types)
  {
    map full | full in types :: packages[full]
  }

  /** Names imported by the bindings of every package. */
  function RuntimeTaken(packages: map<Name, string>): set<(string, Name)> {
    set package, name | package in packages.Values && name in RUNTIME_NAMES :: (package, name)
  }

  /** Another type of the scope has the same default. */
  ghost predicate Shared(scopes: map<Name, string>, defaults: map<Name, Name>, f: Name)
    requires defaults.Keys <= scopes.Keys && f in defaults
  {
    exists g :: g in defaults && g != f && scopes[g] == scopes[f] && defaults[g] == defaults[f]
  }

  /** Every type whose default is a runtime name or shared in its package is named in its series. */
  ghost predicate DisputedReadonly(packages: map<Name, string>, defaults: map<Name, Name>, names: map<Name, Name>)
    requires defaults.Keys <= packages.Keys && names.Keys == defaults.Keys
  {
    var scopes := PackageScopes(packages, defaults);
    forall f | f in defaults && (packages[f] != "" ==> |TrimDots(f)| > |packages[f]|)
               && (defaults[f] in RUNTIME_NAMES || Shared(packages, defaults, f)) ::
      FirstFree(scopes, names, Reserved(scopes, defaults, RuntimeTaken(packages)), f, ReadonlyBase(f, packages[f]))
  }

  /** The same for mutable types, in the one scope they are exported to. */
  ghost predicate DisputedMutable(types: set<Name>, rustTypes: map<Name, Name>, roots: set<Name>,
                                  names: map<Name, Name>)
    requires types <= rustTypes.Keys && names.Keys == types
  {
    var scopes, defaults := OneScopeOf(types), MutableDefaults(types, rustTypes);
    forall f | f in types && (defaults[f] in roots || Shared(scopes, defaults, f)) ::
      FirstFree(scopes, names, Reserved(scopes, defaults, RootsTaken(roots)), f, MutableBase(f))
  }

  function OneScopeOf(types: set<Name>): map<Name, string> {
    map full | full in types :: ""
  }

  function MutableDefaults(types: set<Name>, rustTypes: map<Name, Name>): map<Name, Name>
    requires types <= rustTypes.Keys
  {
    map full | full in types :: rustTypes[full] + "Mutable"
  }

  function RootsTaken(roots: set<Name>): set<(string, Name)> {
    set name | name in roots :: ("", name)
  }

  /** Every named type has a package, which its full name starts with; mutable types are types. */
  ghost predicate WellFormed(packages: map<Name, string>, rustTypes: map<Name, Name>, mutableTypes: set<Name>) {
    && rustTypes.Keys <= packages.Keys && mutableTypes <= rustTypes.Keys
    && forall full :: full in rustTypes && packages[full] != "" ==> |TrimDots(full)| > |packages[full]|
  }

  /** What a type adds to the names where the mutable types are re-exported: itself, or the outermost
      module of its package. */
  function RootOf(packages: map<Name, string>, rustTypes: map<Name, Name>, full: Name): Name
    requires full in rustTypes && full in packages
  {
    if packages[full] == "" then rustTypes[full] else Outermost(packages[full])
  }

  function RootNames(packages: map<Name, string>, rustTypes: map<Name, Name>): (roots: set<Name>)
    requires rustTypes.Keys <= packages.Keys
    ensures forall name ::
        name in roots <==> exists full | full in rustTypes :: name == RootOf(packages, rustTypes, full)
  {
    set full | full in rustTypes :: RootOf(packages, rustTypes, full)
  }

  /** The part of a package in front of its first dot. */
  ghost predicate IsHead(name: Name, package: string) {
    && '.' !in name && |name| <= |package| && package[..|name|] == name
    && (|name| < |package| ==> package[|name|] == '.')
  }

  lemma HeadUnique(a: Name, b: Name, package: string)
    requires IsHead(a, package) && IsHead(b, package)
    ensures a == b
  {
    assert forall i :: 0 <= i < |a| ==> a[i] == package[i];
    assert forall i :: 0 <= i < |b| ==> b[i] == package[i];
  }

  /** The names mutable types must avoid: those of the types without a package, and the outermost modules. */
  lemma RootNamesAre(packages: map<Name, string>, rustTypes: map<Name, Name>, name: Name)
    requires rustTypes.Keys <= packages.Keys
    ensures name in RootNames(packages, rustTypes) <==> exists full | full in rustTypes ::
              if packages[full] == "" then name == rustTypes[full] else IsHead(name, packages[full])
  {
    forall full | full in rustTypes
      ensures name == RootOf(packages, rustTypes, full) <==>
              if packages[full] == "" then name == rustTypes[full] else IsHead(name, packages[full])
    {
      OutermostSpelled(packages[full]);
      if packages[full] != "" && IsHead(name, packages[full]) {
        HeadUnique(name, Outermost(packages[full]), packages[full]);
      }
    }
  }

  lemma Fits(packages: map<Name, string>, rustTypes: map<Name, Name>, mutableTypes: set<Name>)
    requires WellFormed(packages, rustTypes, mutableTypes)
    ensures forall full :: full in rustTypes && packages[full] != "" ==> |TrimDots(full)| > |packages[full]|
  {
  }

  lemma FitsStill(packages: map<Name, string>, rustTypes: map<Name, Name>, names: map<Name, Name>,
                  mutableTypes: set<Name>)
    requires WellFormed(packages, rustTypes, mutableTypes) && names.Keys == rustTypes.Keys
    ensures WellFormed(packages, names, mutableTypes)
  {
  }

  method ReadonlySeries(packages: map<Name, string>, rustTypes: map<Name, Name>) returns (names: map<Name, Name>)
    requires rustTypes.Keys <= packages.Keys
    requires forall full :: full in rustTypes && packages[full] != "" ==> |TrimDots(full)| > |packages[full]|
    ensures names.Keys == rustTypes.Keys
    ensures forall f, g :: f in names && g in names && f != g && packages[f] == packages[g] ==> names[f] != names[g]
    ensures forall f :: f in names ==> names[f] !in RUNTIME_NAMES
    ensures forall f :: f in names && rustTypes[f] !in RUNTIME_NAMES
                        && (forall g :: g in names && g != f && packages[g] == packages[f] ==>
                            rustTypes[g] != rustTypes[f]) ==>
                          names[f] == rustTypes[f]
    ensures DisputedReadonly(packages, rustTypes, names)
  {
    hide TrimDots, Underscored, ReadonlyBase, FirstFree;
    var scopes := PackageScopes(packages, rustTypes);
    var bases := map full | full in rustTypes :: ReadonlyBase(full, packages[full]);
    var taken := RuntimeTaken(packages);
    names := Disambiguate(scopes, rustTypes, bases, taken);
    forall f | f in names ensures names[f] !in RUNTIME_NAMES {
      assert scopes[f] == packages[f] && packages[f] in packages.Values;
      assert (scopes[f], names[f]) !in taken;
    }
    forall f | f in names && rustTypes[f] !in RUNTIME_NAMES
               && (forall g :: g in rustTypes && g != f && packages[g] == packages[f] ==> rustTypes[g] != rustTypes[f])
      ensures names[f] == rustTypes[f]
    {
      assert Undisputed(scopes, rustTypes, taken, f);
    }
  }

  method MutableSeries(types: set<Name>, rustTypes: map<Name, Name>, roots: set<Name>) returns (names: map<Name, Name>)
    requires types <= rustTypes.Keys
    ensures names.Keys == types
    ensures forall f, g :: f in names && g in names && f != g ==> names[f] != names[g]
    ensures forall f :: f in names ==> names[f] !in roots
    ensures forall f :: (f in names && rustTypes[f] + "Mutable" !in roots
              && forall g :: g in names && g != f ==> rustTypes[g] != rustTypes[f]) ==>
              names[f] == rustTypes[f] + "Mutable"
    ensures DisputedMutable(types, rustTypes, roots, names)
  {
    hide MutableBase, Undisputed, Distinct, Avoids, FirstFree;
    var scopes := OneScopeOf(types);
    var defaults := MutableDefaults(types, rustTypes);
    var bases := map full | full in types :: MutableBase(full);
    var taken := RootsTaken(roots);
    names := Disambiguate(scopes, defaults, bases, taken);
    OneScope(scopes, defaults, names, roots, taken);
    forall f | f in names && rustTypes[f] + "Mutable" !in roots
        && (forall g :: g in names && g != f ==> rustTypes[g] != rustTypes[f])
      ensures names[f] == rustTypes[f] + "Mutable"
    {
      forall g | g in defaults && g != f ensures defaults[g] != defaults[f] {
        if defaults[g] == defaults[f] { SuffixInjective(rustTypes[g], rustTypes[f]); }
      }
    }
    SharedMutable(types, rustTypes, roots);
  }

  class Registry {
    var packages: map<Name, string>
    var rustTypes: map<Name, Name>
    var mutableNames: map<Name, Name>

    ghost predicate Valid()
      reads this
    {
      WellFormed(packages, rustTypes, mutableNames.Keys)
    }

    constructor (packages: map<Name, string>, rustTypes: map<Name, Name>, mutableNames: map<Name, Name>)
      ensures this.packages == packages && this.rustTypes == rustTypes && this.mutableNames == mutableNames
    {
      this.packages, this.rustTypes, this.mutableNames := packages, rustTypes, mutableNames;
    }

    /** Read-only names: distinct in their package and never a runtime name. */
    method NameReadonly()
      requires Valid()
      modifies this`rustTypes
      ensures Valid() && rustTypes.Keys == old(rustTypes.Keys)
      ensures forall f, g :: f in rustTypes && g in rustTypes && f != g && packages[f] == packages[g] ==>
          rustTypes[f] != rustTypes[g]
      ensures forall f :: f in rustTypes ==> rustTypes[f] !in RUNTIME_NAMES
      ensures forall f :: f in rustTypes && old(rustTypes)[f] !in RUNTIME_NAMES
                          && (forall g :: g in rustTypes && g != f && packages[g] == packages[f] ==>
                              old(rustTypes)[g] != old(rustTypes)[f]) ==>
                            rustTypes[f] == old(rustTypes)[f]
      ensures DisputedReadonly(packages, old(rustTypes), rustTypes)
    {
      assert rustTypes.Keys <= packages.Keys;
      Fits(packages, rustTypes, mutableNames.Keys);
      hide WellFormed;
      rustTypes := ReadonlySeries(packages, rustTypes);
      FitsStill(packages, old(rustTypes), rustTypes, mutableNames.Keys);
    }

    /** Mutable names: distinct everywhere and never a root name. */
    method NameMutable()
      requires Valid()
      modifies this`mutableNames
      ensures Valid() && mutableNames.Keys == old(mutableNames.Keys)
      ensures forall f, g :: f in mutableNames && g in mutableNames && f != g ==> mutableNames[f] != mutableNames[g]
      ensures forall f :: f in mutableNames ==> mutableNames[f] !in RootNames(packages, rustTypes)
      ensures forall f :: f in mutableNames && rustTypes[f] + "Mutable" !in RootNames(packages, rustTypes)
                          && (forall g :: g in mutableNames && g != f ==> rustTypes[g] != rustTypes[f]) ==>
                            mutableNames[f] == rustTypes[f] + "Mutable"
      ensures DisputedMutable(mutableNames.Keys, rustTypes, RootNames(packages, rustTypes), mutableNames)
    {
      hide Outermost, RootNames;
      assert rustTypes.Keys <= packages.Keys;
      hide WellFormed;
      mutableNames := MutableSeries(mutableNames.Keys, rustTypes, RootNames(packages, rustTypes));
    }

    /** assign_unique_names */
    method AssignUniqueNames()
      requires Valid()
      modifies this
      ensures packages == old(packages) && rustTypes.Keys == old(rustTypes.Keys)
          && mutableNames.Keys == old(mutableNames.Keys)
      ensures forall f, g :: f in rustTypes && g in rustTypes && f != g && packages[f] == packages[g] ==>
          rustTypes[f] != rustTypes[g]
      ensures forall f :: f in rustTypes ==> rustTypes[f] !in RUNTIME_NAMES
      ensures forall f :: f in rustTypes && old(rustTypes)[f] !in RUNTIME_NAMES
                          && (forall g :: g in rustTypes && g != f && packages[g] == packages[f] ==>
                              old(rustTypes)[g] != old(rustTypes)[f]) ==>
                            rustTypes[f] == old(rustTypes)[f]
      ensures Valid() && forall f :: f in mutableNames ==> mutableNames[f] !in RootNames(packages, rustTypes)
      ensures forall f, g :: f in mutableNames && g in mutableNames && f != g ==> mutableNames[f] != mutableNames[g]
      ensures forall f :: f in mutableNames && rustTypes[f] + "Mutable" !in RootNames(packages, rustTypes)
                          && (forall g :: g in mutableNames && g != f ==> rustTypes[g] != rustTypes[f]) ==>
                            mutableNames[f] == rustTypes[f] + "Mutable"
      ensures DisputedReadonly(packages, old(rustTypes), rustTypes)
      ensures DisputedMutable(mutableNames.Keys, rustTypes, RootNames(packages, rustTypes), mutableNames)
    {
      hide RootNames;
      NameReadonly();
      NameMutable();
    }
  }

  /** A pass over a single scope. */
  lemma OneScope(scopes: map<Name, string>, defaults: map<Name, Name>, names: map<Name, Name>, roots: set<Name>,
                 taken: set<(string, Name)>)
    requires SameKeys(scopes, defaults) && SameKeys(names, defaults) && (forall f :: f in scopes ==> scopes[f] == "")
    requires taken == set name | name in roots :: ("", name)
    requires Distinct(scopes, names) && Avoids(scopes, names, taken)
    requires forall f :: f in defaults && Undisputed(scopes, defaults, taken, f) ==> names[f] == defaults[f]
    ensures forall f, g :: f in names && g in names && f != g ==> names[f] != names[g]
    ensures forall f :: f in names ==> names[f] !in roots
    ensures forall f :: (f in names && defaults[f] !in roots
              && forall g :: g in defaults && g != f ==> defaults[g] != defaults[f]) ==>
              names[f] == defaults[f]
  {
    forall f | f in names ensures names[f] !in roots {
      assert (scopes[f], names[f]) !in taken;
    }
    forall f, g | f in names && g in names && f != g ensures names[f] != names[g] {
      assert (scopes[f], names[f]) != (scopes[g], names[g]);
    }
    forall f | f in names && defaults[f] !in roots
        && (forall g :: g in defaults && g != f ==> defaults[g] != defaults[f])
      ensures names[f] == defaults[f]
    {
      assert Undisputed(scopes, defaults, taken, f);
    }
  }

  lemma SharedMutable(types: set<Name>, rustTypes: map<Name, Name>, roots: set<Name>)
    requires types <= rustTypes.Keys
    ensures var scopes, defaults := OneScopeOf(types), MutableDefaults(types, rustTypes);
            forall f :: f in types && (defaults[f] in roots || Shared(scopes, defaults, f)) ==>
              !Undisputed(scopes, defaults, RootsTaken(roots), f)
  {
    var scopes, defaults := OneScopeOf(types), MutableDefaults(types, rustTypes);
    forall f | f in types && defaults[f] in roots ensures !Undisputed(scopes, defaults, RootsTaken(roots), f) {
      assert ("", defaults[f]) in RootsTaken(roots);
    }
  }

  lemma SuffixInjective(a: Name, b: Name)
    requires a + "Mutable" == b + "Mutable"
    ensures a == b
  {
    assert |a| == |b|;
    assert a == (a + "Mutable")[..|a|] && b == (b + "Mutable")[..|b|];
  }
}
