/** Result types and set facts shared by the models. */
module Common {

  datatype Option<+T> = None | Some(value: T)

  datatype Result<+T, +E> = Ok(value: T) | Err(error: E)

  /** How many of the first k entries keep accepts. */
  function Accepted<T>(all: seq<T>, keep: T -> bool, k: nat): nat
    requires k <= |all|
  {
    if k == 0 then 0 else Accepted(all, keep, k - 1) + if keep(all[k - 1]) then 1 else 0
  }

  /**
   kept is all without the entries that keep rejects, in the same order: as many as are accepted,
   and each accepted entry at the place given by the accepted ones before it.
   */
  ghost predicate Keeps<T>(all: seq<T>, keep: T -> bool, kept: seq<T>) {
    && |kept| == Accepted(all, keep, |all|)
    && forall k :: 0 <= k < |all| && keep(all[k]) ==>
         Accepted(all, keep, k) < |kept| && kept[Accepted(all, keep, k)] == all[k]
  }

  lemma {:induction false} AcceptedOfLonger<T>(all: seq<T>, x: T, keep: T -> bool, k: nat)
    requires k <= |all|
    ensures Accepted(all + [x], keep, k) == Accepted(all, keep, k)
  {
    if k == 0 {
    } else {
      AcceptedOfLonger(all, x, keep, k - 1);
    }
  }

  lemma KeepsStep<T>(all: seq<T>, keep: T -> bool, kept: seq<T>, x: T)
    requires Keeps(all, keep, kept)
    ensures Keeps(all + [x], keep, if keep(x) then kept + [x] else kept)
  {
    var all' := all + [x];
    forall k | 0 <= k <= |all|
      ensures Accepted(all', keep, k) == Accepted(all, keep, k)
    {
      AcceptedOfLonger(all, x, keep, k);
    }
    assert Accepted(all', keep, |all'|) == Accepted(all, keep, |all|) + if keep(x) then 1 else 0;
  }

  lemma KeepsInit<T>(all: seq<T>, x: T, keep: T -> bool, kept: seq<T>)
    requires Keeps(all + [x], keep, kept)
    ensures keep(x) ==> kept != [] && kept[|kept| - 1] == x
    ensures Keeps(all, keep, if keep(x) then kept[..|kept| - 1] else kept)
  {
    var all' := all + [x];
    forall k | 0 <= k <= |all|
      ensures Accepted(all', keep, k) == Accepted(all, keep, k)
    {
      AcceptedOfLonger(all, x, keep, k);
    }
    assert all'[|all|] == x;
    forall k | 0 <= k < |all| && keep(all[k])
      ensures Accepted(all, keep, k) < Accepted(all, keep, |all|)
    {
      AcceptedGrows(all, keep, k + 1, |all|);
    }
  }

  lemma {:induction false} AcceptedGrows<T>(all: seq<T>, keep: T -> bool, j: nat, k: nat)
    requires j <= k <= |all|
    ensures Accepted(all, keep, j) <= Accepted(all, keep, k)
  {
    if j == k {
    } else {
      AcceptedGrows(all, keep, j, k - 1);
    }
  }

  lemma EmptyOrHasMember<T>(s: set<T>)
    ensures s == {} || exists x :: x in s
  {}

  lemma Member<T>(s: set<T>) returns (x: T)
    requires s != {}
    ensures x in s
  {
    EmptyOrHasMember(s);
    x :| x in s;
  }
}
