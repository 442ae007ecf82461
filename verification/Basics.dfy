/** Small general notions shared by the models. */
module Basics {

  datatype Option<T> = None | Some(value: T)

  function Min(a: int, b: int): int { if a < b then a else b }

  function Max(a: int, b: int): int { if a > b then a else b }

  predicate NoRepeats(s: seq<string>) {
    forall i, j :: 0 <= i < j < |s| ==> s[i] != s[j]
  }

  function Elements(s: seq<string>): set<string> { set n | n in s }

  lemma ElementsLast(s: seq<string>)
    requires s != []
    ensures Elements(s) == Elements(s[..|s| - 1]) + {s[|s| - 1]}
  {
    assert s == s[..|s| - 1] + [s[|s| - 1]];
  }

  lemma NoRepeatsLast(s: seq<string>)
    requires s != []
    ensures NoRepeats(s) <==> NoRepeats(s[..|s| - 1]) && s[|s| - 1] !in s[..|s| - 1]
  {
    var m := |s| - 1;
    if i :| 0 <= i < m && s[i] == s[m] {
      assert s[..m][i] == s[m];
    }
  }

  /** A list has as many elements as places exactly when it repeats none. */
  lemma {:induction false} ElementsCardinality(s: seq<string>)
    ensures |Elements(s)| <= |s|
    ensures NoRepeats(s) <==> |Elements(s)| == |s|
  {
    if s != [] {
      var m := |s| - 1;
      ElementsCardinality(s[..m]);
      ElementsLast(s);
      NoRepeatsLast(s);
      assert s[m] in s[..m] ==> Elements(s) == Elements(s[..m]);
    }
  }

  lemma SubsetCardinality(a: set<string>, b: set<string>)
    requires a <= b && |a| >= |b|
    ensures a == b
  {
    assert b == a + (b - a);
    assert |b| == |a| + |b - a|;
  }

  /** The strings that have the property, in order. */
  function Filter(all: seq<string>, p: string -> bool): seq<string> {
    if all == [] then []
    else (if p(all[0]) then [all[0]] else []) + Filter(all[1..], p)
  }

  /** `chosen` are the strings at the places `at`, which are in order and exactly the
      places of the strings that have the property. */
  ghost predicate Picks(all: seq<string>, chosen: seq<string>, at: seq<nat>, p: string -> bool) {
    Places(all, chosen, at) && Rising(at) && forall i :: 0 <= i < |all| ==> (p(all[i]) <==> i in at)
  }

  ghost predicate Places(all: seq<string>, chosen: seq<string>, at: seq<nat>) {
    |at| == |chosen| && forall k :: 0 <= k < |at| ==> at[k] < |all| && chosen[k] == all[at[k]]
  }

  ghost predicate Rising(at: seq<nat>) {
    forall j, k :: 0 <= j < k < |at| ==> at[j] < at[k]
  }

  /** Exactly the strings with the property, in order, however often each occurs. */
  ghost predicate Selects(all: seq<string>, chosen: seq<string>, p: string -> bool) {
    exists at :: Picks(all, chosen, at, p)
  }

  function Shifted(at: seq<nat>): (r: seq<nat>)
    ensures |r| == |at| && forall k :: 0 <= k < |at| ==> r[k] == at[k] + 1
  {
    seq(|at|, k requires 0 <= k < |at| => at[k] + 1)
  }

  lemma ShiftedHolds(at: seq<nat>, i: nat)
    ensures i in Shifted(at) <==> i > 0 && i - 1 in at
  {
    if i > 0 && i - 1 in at {
      var k :| 0 <= k < |at| && at[k] == i - 1;
      assert Shifted(at)[k] == i;
    }
  }

  lemma PicksLater(all: seq<string>, chosen: seq<string>, at: seq<nat>, p: string -> bool)
    requires all != [] && !p(all[0]) && Picks(all[1..], chosen, at, p)
    ensures Picks(all, chosen, Shifted(at), p)
  {
    forall i | 0 <= i < |all| ensures p(all[i]) <==> i in Shifted(at) {
      ShiftedHolds(at, i);
      assert i > 0 ==> all[i] == all[1..][i - 1];
    }
  }

  lemma PlacesFirst(all: seq<string>, chosen: seq<string>, at: seq<nat>)
    requires all != [] && Places(all[1..], chosen, at) && Rising(at)
    ensures Places(all, [all[0]] + chosen, [0] + Shifted(at)) && Rising([0] + Shifted(at))
  {
    forall k | 0 <= k < |at| ensures Shifted(at)[k] < |all| && chosen[k] == all[Shifted(at)[k]] {
      assert all[at[k] + 1] == all[1..][at[k]];
    }
  }

  lemma PicksFirst(all: seq<string>, chosen: seq<string>, at: seq<nat>, p: string -> bool)
    requires all != [] && p(all[0]) && Picks(all[1..], chosen, at, p)
    ensures Picks(all, [all[0]] + chosen, [0] + Shifted(at), p)
  {
    PlacesFirst(all, chosen, at);
    forall i | 0 <= i < |all| ensures p(all[i]) <==> i in [0] + Shifted(at) {
      ShiftedHolds(at, i);
      assert i in [0] + Shifted(at) <==> i == 0 || i in Shifted(at);
      assert i > 0 ==> all[i] == all[1..][i - 1];
    }
  }

  lemma {:induction false} FilterSelects(all: seq<string>, p: string -> bool) returns (at: seq<nat>)
    ensures Picks(all, Filter(all, p), at, p)
  {
    if all == [] {
      at := [];
    } else {
      var rest := Filter(all[1..], p);
      var later := FilterSelects(all[1..], p);
      at := PicksNext(all, rest, later, p);
    }
  }

  lemma PicksNext(all: seq<string>, rest: seq<string>, later: seq<nat>, p: string -> bool) returns (at: seq<nat>)
    requires all != [] && Picks(all[1..], rest, later, p)
    ensures Picks(all, (if p(all[0]) then [all[0]] else []) + rest, at, p)
  {
    if p(all[0]) {
      PicksFirst(all, rest, later, p);
      at := [0] + Shifted(later);
    } else {
      PicksLater(all, rest, later, p);
      at := Shifted(later);
      assert [] + rest == rest;
    }
  }

  lemma FilterCons(x: string, rest: seq<string>, p: string -> bool)
    ensures Filter([x] + rest, p) == (if p(x) then [x] else []) + Filter(rest, p)
  {
    assert ([x] + rest)[1..] == rest;
  }

  lemma Regrouped(a: seq<string>, b: seq<string>, c: seq<string>)
    ensures a + (b + c) == a + b + c
  {
  }

  lemma FilterMoves(x: string, rest: seq<string>, b: seq<string>, p: string -> bool)
    requires Filter(rest + b, p) == Filter(rest, p) + Filter(b, p)
    ensures Filter([x] + (rest + b), p) == Filter([x] + rest, p) + Filter(b, p)
  {
    FilterCons(x, rest + b, p);
    FilterCons(x, rest, p);
    Regrouped(if p(x) then [x] else [], Filter(rest, p), Filter(b, p));
  }

  lemma {:induction false} FilterConcat(a: seq<string>, b: seq<string>, p: string -> bool)
    ensures Filter(a + b, p) == Filter(a, p) + Filter(b, p)
  {
    if a == [] {
      assert a + b == b;
    } else {
      FilterConcat(a[1..], b, p);
      FilterMoves(a[0], a[1..], b, p);
      assert a == [a[0]] + a[1..];
      Regrouped([a[0]], a[1..], b);
    }
  }

  lemma {:induction false} FilterNoneIff(all: seq<string>, p: string -> bool)
    ensures Filter(all, p) == [] <==> forall i :: 0 <= i < |all| ==> !p(all[i])
  {
    if all != [] {
      FilterNoneIff(all[1..], p);
      assert forall i :: 0 <= i < |all[1..]| ==> all[1..][i] == all[i + 1];
      if forall i :: 0 <= i < |all[1..]| ==> !p(all[1..][i]) {
        forall i | 0 < i < |all| ensures !p(all[i]) {
          assert all[1..][i - 1] == all[i];
        }
      }
    }
  }
}
