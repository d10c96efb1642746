/**
  The store as a finite sequence of records in insertion order, with the
  lookup the controller uses (`findOne`) and a count of matching records.
 */
module Store {
  import opened Users

  /** Record `i` matches `f` and no earlier record does. */
  predicate FirstMatch(store: seq<User>, f: Filter, i: int) {
    && 0 <= i < |store|
    && Matches(store[i], f)
    && forall j :: 0 <= j < i ==> !Matches(store[j], f)
  }

  /** Some record matches `f`. */
  predicate AnyMatch(store: seq<User>, f: Filter) {
    exists i :: 0 <= i < |store| && Matches(store[i], f)
  }

  /**
    `findOne(filter)`: the position of the first record matching the filter,
    or none when no record does.
   */
  function FindOne(store: seq<User>, f: Filter): (r: Option<nat>)
    ensures r.Some? ==> FirstMatch(store, f, r.value)
    ensures r.None? <==> !AnyMatch(store, f)
  {
    if |store| == 0 then None
    else if Matches(store[0], f) then Some(0)
    else match FindOne(store[1..], f)
      case None =>
        assert forall j :: 1 <= j < |store| ==> store[j] == store[1..][j - 1];
        None
      case Some(k) =>
        assert store[k + 1] == store[1..][k];
        assert forall j :: 1 <= j <= k ==> store[j] == store[1..][j - 1];
        Some(k + 1)
  }

  /** At most one position is the first match. */
  lemma FirstMatchUnique(store: seq<User>, f: Filter, i: int, j: int)
    requires FirstMatch(store, f, i) && FirstMatch(store, f, j)
    ensures i == j
  {
  }

  function Indicator(u: User, f: Filter): nat {
    if Matches(u, f) then 1 else 0
  }

  /** How many records match `f`. */
  function Holders(store: seq<User>, f: Filter): (n: nat)
    ensures n <= |store|
    ensures n == 0 <==> !AnyMatch(store, f)
  {
    if |store| == 0 then 0
    else
      assert forall j :: 1 <= j < |store| ==> store[j] == store[1..][j - 1];
      assert AnyMatch(store[1..], f) ==> AnyMatch(store, f) by {
        if AnyMatch(store[1..], f) {
          var k :| 0 <= k < |store[1..]| && Matches(store[1..][k], f);
          assert Matches(store[k + 1], f);
        }
      }
      Indicator(store[0], f) + Holders(store[1..], f)
  }

  /** Replacing one record changes the count by that record's contribution only. */
  lemma {:induction false} HoldersUpdate(store: seq<User>, i: nat, u: User, f: Filter)
    requires i < |store|
    ensures Holders(store[i := u], f) == Holders(store, f) - Indicator(store[i], f) + Indicator(u, f)
    decreases |store|
  {
    if i == 0 {
      assert store[i := u][1..] == store[1..];
    } else {
      assert store[i := u][1..] == store[1..][i - 1 := u];
      HoldersUpdate(store[1..], i - 1, u, f);
    }
  }

  /** Appending a record adds its contribution to the count. */
  lemma {:induction false} HoldersAppend(store: seq<User>, u: User, f: Filter)
    ensures Holders(store + [u], f) == Holders(store, f) + Indicator(u, f)
    decreases |store|
  {
    if |store| == 0 {
      assert (store + [u])[1..] == [];
    } else {
      assert (store + [u])[1..] == store[1..] + [u];
      HoldersAppend(store[1..], u, f);
    }
  }
}
