/** The query-string parameter list of the WHATWG URL Standard, section 6.2
    (the `URLSearchParams` interface): an ordered list of name-value pairs in
    which a name may repeat. Only the operations the front end uses are
    modelled: `get`, `set` and `delete`. */
module SearchParams {
  import opened Wrappers

  /** One name-value pair of the list. */
  datatype Param = Param(name: string, value: string)

  /** Number of pairs named `n`. */
  function Count(ps: seq<Param>, n: string): nat {
    if ps == [] then 0 else (if ps[0].name == n then 1 else 0) + Count(ps[1..], n)
  }

  /** `get(n)`: the value of the first pair named `n`, if any. */
  function Get(ps: seq<Param>, n: string): (r: Option<string>)
    ensures r.None? <==> Count(ps, n) == 0
  {
    if ps == [] then None
    else if ps[0].name == n then Some(ps[0].value)
    else Get(ps[1..], n)
  }

  /** `get(n)` answers with the value of the first pair named `n`: when pair
      `i` is the first with that name, its value is the answer. */
  lemma {:induction false} GetFirst(ps: seq<Param>, n: string, i: nat)
    requires i < |ps| && ps[i].name == n
    requires forall j :: 0 <= j < i ==> ps[j].name != n
    ensures Get(ps, n) == Some(ps[i].value)
  {
    if i > 0 {
      GetFirst(ps[1..], n, i - 1);
    }
  }

  /** `delete(n)`: every pair named `n` removed, the others kept in order. */
  function Delete(ps: seq<Param>, n: string): (r: seq<Param>)
    ensures Count(r, n) == 0
    ensures |r| == |ps| - Count(ps, n)
    ensures |ps| == 1 ==> r == (if ps[0].name == n then [] else ps)
  {
    if ps == [] then []
    else if ps[0].name == n then Delete(ps[1..], n)
    else [ps[0]] + Delete(ps[1..], n)
  }

  /** `delete` works pair by pair: on a list cut in two it deletes from each
      part. With the one-pair case of `Delete` this fixes the result: the
      pairs of other names are kept, in their order. */
  lemma {:induction false} DeleteSplits(a: seq<Param>, b: seq<Param>, n: string)
    ensures Delete(a + b, n) == Delete(a, n) + Delete(b, n)
  {
    if a != [] {
      assert (a + b)[0] == a[0];
      assert (a + b)[1..] == a[1..] + b;
      DeleteSplits(a[1..], b, n);
    } else {
      assert a + b == b;
    }
  }

  /** Pair `i` is the first named `n`. */
  predicate IsFirst(ps: seq<Param>, n: string, i: int) {
    0 <= i < |ps| && ps[i].name == n && forall j :: 0 <= j < i ==> ps[j].name != n
  }

  /** `set(n, v)`: when some pair is named `n`, the first one takes the value `v`
      and the others are removed; otherwise `(n, v)` is appended. Afterwards
      exactly one pair is named `n` and `get(n)` reads `v`; deleting `n` then
      gives what deleting `n` alone gives, so `set` touches no pair of any
      other name, nor their order. */
  function Set(ps: seq<Param>, n: string, v: string): (r: seq<Param>)
    ensures Count(ps, n) == 0 ==> r == ps + [Param(n, v)]
    ensures forall i :: IsFirst(ps, n, i) ==>
      i < |r| && r[..i] == ps[..i] && r[i] == Param(n, v) && r[i + 1..] == Delete(ps[i + 1..], n)
    ensures Count(r, n) == 1
    ensures Get(r, n) == Some(v)
    ensures Delete(r, n) == Delete(ps, n)
  {
    if Count(ps, n) == 0 then
      AppendedIsLast(ps, Param(n, v));
      DeleteAppended(ps, Param(n, v));
      NoFirstWhenAbsent(ps, n);
      ps + [Param(n, v)]
    else
      SetFirstReadsBack(ps, n, v);
      DeleteAfterSetFirst(ps, n, v);
      SetFirstShapeAll(ps, n, v);
      SetFirst(ps, n, v)
  }

  /** A list without the name has no first pair of it. */
  lemma {:induction false} NoFirstWhenAbsent(ps: seq<Param>, n: string)
    requires Count(ps, n) == 0
    ensures forall i :: !IsFirst(ps, n, i)
  {
    forall i | IsFirst(ps, n, i) ensures false {
      CountedAt(ps, n, i);
    }
  }

  /** A pair of the name makes its count positive. */
  lemma {:induction false} CountedAt(ps: seq<Param>, n: string, i: int)
    requires 0 <= i < |ps| && ps[i].name == n
    ensures Count(ps, n) > 0
  {
    if i > 0 {
      CountedAt(ps[1..], n, i - 1);
    }
  }

  lemma SetFirstShapeAll(ps: seq<Param>, n: string, v: string)
    requires Count(ps, n) > 0
    ensures forall i :: IsFirst(ps, n, i) ==>
      var r := SetFirst(ps, n, v);
      i < |r| && r[..i] == ps[..i] && r[i] == Param(n, v) && r[i + 1..] == Delete(ps[i + 1..], n)
  {
    forall i | IsFirst(ps, n, i)
      ensures var r := SetFirst(ps, n, v);
        i < |r| && r[..i] == ps[..i] && r[i] == Param(n, v) && r[i + 1..] == Delete(ps[i + 1..], n)
    {
      SetFirstShape(ps, n, v, i);
    }
  }

  /** The replacing branch keeps the pairs before the first one named `n`,
      puts `(n, v)` in its place and deletes `n` from the rest. */
  lemma {:induction false} SetFirstShape(ps: seq<Param>, n: string, v: string, i: int)
    requires IsFirst(ps, n, i)
    ensures Count(ps, n) > 0
    ensures var r := SetFirst(ps, n, v);
      i < |r| && r[..i] == ps[..i] && r[i] == Param(n, v) && r[i + 1..] == Delete(ps[i + 1..], n)
  {
    CountedAt(ps, n, i);
    var r := SetFirst(ps, n, v);
    if i > 0 {
      assert IsFirst(ps[1..], n, i - 1);
      SetFirstShape(ps[1..], n, v, i - 1);
      var t := SetFirst(ps[1..], n, v);
      assert r == [ps[0]] + t;
      assert r[..i] == [ps[0]] + t[..i - 1];
      assert ps[..i] == [ps[0]] + ps[1..][..i - 1];
      assert ps[i + 1..] == ps[1..][i..];
    }
  }

  /** The replacing branch of `set`: the first pair named `n` takes `v`. */
  function SetFirst(ps: seq<Param>, n: string, v: string): seq<Param>
    requires Count(ps, n) > 0
  {
    if ps[0].name == n then [Param(n, v)] + Delete(ps[1..], n)
    else [ps[0]] + SetFirst(ps[1..], n, v)
  }

  lemma {:induction false} SetFirstReadsBack(ps: seq<Param>, n: string, v: string)
    requires Count(ps, n) > 0
    ensures Count(SetFirst(ps, n, v), n) == 1
    ensures Get(SetFirst(ps, n, v), n) == Some(v)
  {
    var r := SetFirst(ps, n, v);
    if ps[0].name == n {
      assert r[1..] == Delete(ps[1..], n);
    } else {
      SetFirstReadsBack(ps[1..], n, v);
      assert r[1..] == SetFirst(ps[1..], n, v);
    }
  }

  /** A pair appended to a list without its name is the one `get` finds. */
  lemma {:induction false} AppendedIsLast(ps: seq<Param>, p: Param)
    requires Count(ps, p.name) == 0
    ensures Count(ps + [p], p.name) == 1
    ensures Get(ps + [p], p.name) == Some(p.value)
  {
    if ps != [] {
      assert (ps + [p])[1..] == ps[1..] + [p];
      AppendedIsLast(ps[1..], p);
    }
  }

  lemma {:induction false} DeleteAppended(ps: seq<Param>, p: Param)
    ensures Delete(ps + [p], p.name) == Delete(ps, p.name)
  {
    if ps != [] {
      assert (ps + [p])[1..] == ps[1..] + [p];
      DeleteAppended(ps[1..], p);
    }
  }

  lemma {:induction false} DeleteAfterSetFirst(ps: seq<Param>, n: string, v: string)
    requires Count(ps, n) > 0
    ensures Delete(SetFirst(ps, n, v), n) == Delete(ps, n)
  {
    if ps[0].name == n {
      DeleteTwice(ps[1..], n);
    } else {
      DeleteAfterSetFirst(ps[1..], n, v);
    }
  }

  /** Deleting a name twice is deleting it once. */
  lemma {:induction false} DeleteTwice(ps: seq<Param>, n: string)
    ensures Delete(Delete(ps, n), n) == Delete(ps, n)
  {
    if ps != [] {
      DeleteTwice(ps[1..], n);
    }
  }

  /** Deleting a name the list does not hold changes nothing. */
  lemma {:induction false} DeleteAbsent(ps: seq<Param>, n: string)
    requires Count(ps, n) == 0
    ensures Delete(ps, n) == ps
  {
    if ps != [] {
      DeleteAbsent(ps[1..], n);
      assert ps == [ps[0]] + ps[1..];
    }
  }

  /** Setting the value a name already has, when it occurs once, changes nothing. */
  lemma {:induction false} SetPresent(ps: seq<Param>, n: string, v: string)
    requires Count(ps, n) == 1 && Get(ps, n) == Some(v)
    ensures Set(ps, n, v) == ps
  {
    SetFirstPresent(ps, n, v);
  }

  lemma {:induction false} SetFirstPresent(ps: seq<Param>, n: string, v: string)
    requires Count(ps, n) == 1 && Get(ps, n) == Some(v)
    ensures SetFirst(ps, n, v) == ps
  {
    if ps[0].name == n {
      DeleteAbsent(ps[1..], n);
      assert ps == [Param(n, v)] + ps[1..];
    } else {
      SetFirstPresent(ps[1..], n, v);
      assert ps == [ps[0]] + ps[1..];
    }
  }

  /** Deletions of two names commute. */
  lemma {:induction false} DeleteCommutes(ps: seq<Param>, a: string, b: string)
    ensures Delete(Delete(ps, a), b) == Delete(Delete(ps, b), a)
  {
    if ps != [] {
      DeleteCommutes(ps[1..], a, b);
    }
  }

  /** Deleting one name leaves the pairs of every other name, so their count
      and the value `get` returns for them, as they were. */
  lemma {:induction false} DeleteKeepsOthers(ps: seq<Param>, n: string, m: string)
    requires m != n
    ensures Count(Delete(ps, n), m) == Count(ps, m)
    ensures Get(Delete(ps, n), m) == Get(ps, m)
  {
    if ps != [] {
      DeleteKeepsOthers(ps[1..], n, m);
    }
  }

  /** No name occurs twice. */
  predicate UniqueNames(ps: seq<Param>) {
    forall i, j :: 0 <= i < j < |ps| ==> ps[i].name != ps[j].name
  }

  /** A list whose names are drawn from `allowed`. */
  predicate NamesWithin(ps: seq<Param>, allowed: set<string>) {
    forall i :: 0 <= i < |ps| ==> ps[i].name in allowed
  }

  lemma {:induction false} CountOutside(ps: seq<Param>, allowed: set<string>, n: string)
    requires NamesWithin(ps, allowed) && n !in allowed
    ensures Count(ps, n) == 0
  {
    if ps != [] {
      CountOutside(ps[1..], allowed, n);
    }
  }

  /** In a list without repeated names, `get` finds exactly the pairs present. */
  lemma {:induction false} GetOfUnique(ps: seq<Param>, n: string, v: string)
    requires UniqueNames(ps)
    ensures Get(ps, n) == Some(v) <==> Param(n, v) in ps
  {
    if ps != [] {
      assert UniqueNames(ps[1..]);
      GetOfUnique(ps[1..], n, v);
    }
  }

  /** `get` finds nothing exactly when no pair has the name. */
  lemma {:induction false} GetNone(ps: seq<Param>, n: string)
    ensures Get(ps, n).None? <==> forall i :: 0 <= i < |ps| ==> ps[i].name != n
  {
    if ps != [] {
      GetNone(ps[1..], n);
      assert forall i :: 1 <= i < |ps| ==> ps[i] == ps[1..][i - 1];
    }
  }
}
