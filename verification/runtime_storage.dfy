/** `RuntimeTransactionStorage`: transactions in a map, under ids handed out
    by a counter that starts at 0. */
module RuntimeStorage {
  import opened Outcomes
  import opened JavaTypes
  import opened Errors
  import opened TransactionUnit

  datatype Store = Store(transactions: map<Int32, Transaction>, lastFreeId: Int32)

  /** A freshly constructed store. */
  const Empty: Store := Store(map[], 0)

  /** The ids are exactly 0 up to, not including, the counter. */
  ghost predicate Valid(s: Store)
  {
    && 0 <= s.lastFreeId
    && forall id: Int32 :: id in s.transactions <==> 0 <= id < s.lastFreeId
  }

  /** `addTransaction`: stores under the current counter, then increments it
      (a Java `int`, so it wraps after the largest value). */
  function Add(s: Store, t: Transaction): (r: Store)
    ensures r.transactions.Keys == s.transactions.Keys + {s.lastFreeId}
    ensures r.transactions[s.lastFreeId] == t
    ensures forall id :: id in s.transactions && id != s.lastFreeId ==> r.transactions[id] == s.transactions[id]
    ensures s.lastFreeId < MaxInt32 ==> r.lastFreeId == s.lastFreeId + 1
  {
    Store(s.transactions[s.lastFreeId := t], Increment(s.lastFreeId))
  }

  /** While the counter has not reached the largest `int`, an add keeps the
      ids exactly 0 up to the counter: the new id was not in use, so no
      earlier entry is overwritten. */
  lemma AddKeepsValid(s: Store, t: Transaction)
    requires Valid(s) && s.lastFreeId < MaxInt32
    ensures s.lastFreeId !in s.transactions
    ensures Valid(Add(s, t))
    ensures Add(s, t).transactions == s.transactions[s.lastFreeId := t]
  {
  }

  /** `addTransaction` for each transaction in turn. */
  function AddAll(s: Store, ts: seq<Transaction>): Store
    decreases |ts|
  {
    if |ts| == 0 then s else AddAll(Add(s, ts[0]), ts[1..])
  }

  /** After `n` adds to a valid store whose counter stays within `int`, the
      counter has advanced by `n` and the i-th added transaction sits under
      the old counter plus i, with every earlier entry unchanged. */
  lemma {:induction false} AddAllSpec(s: Store, ts: seq<Transaction>)
    requires Valid(s) && s.lastFreeId + |ts| <= MaxInt32
    ensures Valid(AddAll(s, ts))
    ensures AddAll(s, ts).lastFreeId == s.lastFreeId + |ts|
    ensures forall id :: id in s.transactions ==> AddAll(s, ts).transactions[id] == s.transactions[id]
    ensures forall i :: 0 <= i < |ts| ==> AddAll(s, ts).transactions[s.lastFreeId + i] == ts[i]
    decreases |ts|
  {
    if |ts| > 0 {
      var s' := Add(s, ts[0]);
      AddKeepsValid(s, ts[0]);
      AddAllSpec(s', ts[1..]);
      forall i | 0 <= i < |ts|
        ensures AddAll(s, ts).transactions[s.lastFreeId + i] == ts[i]
      {
        if i > 0 {
          assert ts[1..][i - 1] == ts[i];
        }
      }
    }
  }

  /** After `n` adds to a new store, the ids are exactly 0 .. n-1 and id i
      holds the i-th transaction added. */
  lemma AddsFromEmpty(ts: seq<Transaction>)
    requires |ts| <= MaxInt32
    ensures forall id: Int32 :: id in AddAll(Empty, ts).transactions <==> 0 <= id < |ts|
    ensures forall i :: 0 <= i < |ts| ==> AddAll(Empty, ts).transactions[i] == ts[i]
  {
    AddAllSpec(Empty, ts);
  }

  /** `getTransactionById`. */
  function GetById(s: Store, id: Int32): (r: Result<Transaction, Error>)
    ensures r.Ok? <==> id in s.transactions
    ensures r.Ok? ==> r.value == s.transactions[id]
    ensures r.Err? ==> r.error == NoTransactions(NoSuchId(id))
  {
    if id in s.transactions then Ok(s.transactions[id]) else Err(NoTransactions(NoSuchId(id)))
  }

  /** The entries dated strictly between `start` and `end`, under their ids. */
  function Between(m: map<Int32, Transaction>, start: Timestamp, end: Timestamp): map<Int32, Transaction>
  {
    map id | id in m && start < m[id].dateTime < end :: m[id]
  }

  /** `getTransactionsBetweenDates`: the entries dated strictly between the
      bounds, keeping their ids, or `NoTransactions` when there are none. */
  function GetBetween(s: Store, start: Timestamp, end: Timestamp): (r: Result<map<Int32, Transaction>, Error>)
    ensures r.Ok? ==> r.value != map[]
    ensures r.Ok? ==> forall id :: id in r.value <==> id in s.transactions && start < s.transactions[id].dateTime < end
    ensures r.Ok? ==> forall id :: id in r.value ==> r.value[id] == s.transactions[id]
    ensures r.Err? <==> forall id :: id in s.transactions ==> !(start < s.transactions[id].dateTime < end)
    ensures r.Err? ==> r.error == NoTransactions(NothingBetween(start, end))
  {
    var found := Between(s.transactions, start, end);
    if found == map[] then
      assert forall id :: id in s.transactions ==> id !in found;
      Err(NoTransactions(NothingBetween(start, end)))
    else Ok(found)
  }
}
