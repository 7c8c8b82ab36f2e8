/**
 * The bookkeeping that the wallet's API client does on an `Address` after
 * each explorer or node response: the available balance, the paginated list
 * of confirmed transactions, the sweep fees and the pending transactions.
 * The network responses themselves are parameters.
 */
module ApiClients {
  import opened Wrappers

  /** A confirmed transaction as the explorer lists it; only hash and time are used. */
  datatype Transaction = Transaction(hash: string, timestamp: int)

  /**
   * The explorer's address details. A balance is `None` when the field is
   * missing or empty (falsy) and otherwise holds the value `BigInt` parses.
   */
  datatype AddressDetails = AddressDetails(balance: Option<int>, lockedBalance: Option<int>)

  /** An unsigned transaction of a UTXO consolidation, with its gas. */
  datatype UnsignedTx = UnsignedTx(txId: string, unsignedTx: string, gasPrice: int, gasAmount: int)

  /** What `buildSweepTransactions` returns. */
  datatype SweepTransactions = SweepTransactions(unsignedTxs: seq<UnsignedTx>, fees: int)

  /** The `data` of a successful `transactionSend` response. */
  datatype SentTransaction = SentTransaction(txId: string)

  /** The record handed to `addPendingTransaction`. */
  datatype PendingTransaction = PendingTransaction(
    txId: string, fromAddress: string, toAddress: string, timestamp: int,
    amount: Option<int>, txType: string, network: string)

  /** The confirmed-transaction list of an address and the last page loaded. */
  datatype ConfirmedTransactions = ConfirmedTransactions(confirmed: seq<Transaction>, loadedPage: int)

  // ---------------------------------------------------------------------
  // Balances
  // ---------------------------------------------------------------------

  /** `availableBalance` after `fetchAddressDetails` has read `data`. */
  function AvailableBalance(previous: int, data: AddressDetails): (r: int)
    ensures data.balance.Some? && data.lockedBalance.Some? ==>
              r == data.balance.value - data.lockedBalance.value
    ensures data.balance.Some? && data.lockedBalance.None? ==> r == data.balance.value
    ensures data.balance.None? && data.lockedBalance.Some? ==> r == previous - data.lockedBalance.value
    ensures data.balance.None? && data.lockedBalance.None? ==> r == previous
  {
    var fromBalance := if data.balance.Some? then data.balance.value else previous;
    if data.lockedBalance.Some? then fromBalance - data.lockedBalance.value else fromBalance
  }

  // ---------------------------------------------------------------------
  // Sweep fees
  // ---------------------------------------------------------------------

  /** The gas cost of one transaction. */
  function GasCost(tx: UnsignedTx): int {
    tx.gasPrice * tx.gasAmount
  }

  /** The `reduce` of `buildSweepTransactions`: a left fold from `acc`. */
  function FeesFrom(acc: int, txs: seq<UnsignedTx>): (fees: int)
    ensures (forall i :: 0 <= i < |txs| ==> txs[i].gasPrice >= 0 && txs[i].gasAmount >= 0) ==> fees >= acc
    decreases |txs|
  {
    if txs == [] then acc
    else
      assert forall i :: 0 <= i < |txs| - 1 ==> txs[1..][i] == txs[i + 1];
      assert txs[0].gasPrice >= 0 && txs[0].gasAmount >= 0 ==> GasCost(txs[0]) >= 0;
      FeesFrom(acc + GasCost(txs[0]), txs[1..])
  }

  /** The reference sum of the gas costs. */
  function TotalGasCost(txs: seq<UnsignedTx>): int
    decreases |txs|
  {
    if txs == [] then 0 else GasCost(txs[0]) + TotalGasCost(txs[1..])
  }

  /** The fold starting from `acc` adds the total gas cost to `acc`. */
  lemma {:induction false} FeesFromIsSum(acc: int, txs: seq<UnsignedTx>)
    ensures FeesFrom(acc, txs) == acc + TotalGasCost(txs)
    decreases |txs|
  {
    if txs != [] {
      FeesFromIsSum(acc + GasCost(txs[0]), txs[1..]);
    }
  }

  /** The total of two batches is the sum of their totals. */
  lemma {:induction false} TotalGasCostAppend(a: seq<UnsignedTx>, b: seq<UnsignedTx>)
    ensures TotalGasCost(a + b) == TotalGasCost(a) + TotalGasCost(b)
    decreases |a|
  {
    if a == [] {
      assert a + b == b;
    } else {
      assert (a + b)[0] == a[0] && (a + b)[1..] == a[1..] + b;
      TotalGasCostAppend(a[1..], b);
    }
  }

  /** With non-negative gas prices and amounts, the fees are non-negative. */
  lemma {:induction false} TotalGasCostNonNegative(txs: seq<UnsignedTx>)
    requires forall i :: 0 <= i < |txs| ==> txs[i].gasPrice >= 0 && txs[i].gasAmount >= 0
    ensures TotalGasCost(txs) >= 0
    decreases |txs|
  {
    if txs != [] {
      assert GasCost(txs[0]) >= 0;
      TotalGasCostNonNegative(txs[1..]);
    }
  }

  /** `buildSweepTransactions` once the node has answered with `unsignedTxs`. */
  function BuildSweepTransactions(unsignedTxs: seq<UnsignedTx>): (r: SweepTransactions)
    ensures r.unsignedTxs == unsignedTxs
    ensures r.fees == TotalGasCost(unsignedTxs)
    ensures unsignedTxs == [] ==> r.fees == 0
  {
    FeesFromIsSum(0, unsignedTxs);
    SweepTransactions(unsignedTxs, FeesFrom(0, unsignedTxs))
  }

  // ---------------------------------------------------------------------
  // The confirmed-transaction list
  // ---------------------------------------------------------------------

  /** Some transaction of `txs` has hash `hash` (the `find` of the merge). */
  predicate HasHash(txs: seq<Transaction>, hash: string) {
    exists t :: t in txs && t.hash == hash
  }

  ghost predicate UniqueHashes(txs: seq<Transaction>) {
    forall i, j :: 0 <= i < j < |txs| ==> txs[i].hash != txs[j].hash
  }

  /** The page entries whose hash is not yet in `confirmed`, in page order. */
  function NewTransactions(data: seq<Transaction>, confirmed: seq<Transaction>): (r: seq<Transaction>)
    ensures forall t :: t in r <==> t in data && !HasHash(confirmed, t.hash)
    ensures |r| <= |data|
    decreases |data|
  {
    if data == [] then []
    else
      var rest := NewTransactions(data[1..], confirmed);
      assert forall t :: t in data <==> t == data[0] || t in data[1..];
      if !HasHash(confirmed, data[0].hash) then [data[0]] + rest else rest
  }

  /** The filter of a page with one entry keeps it iff its hash is unknown. */
  lemma {:induction false} NewTransactionsSingle(t: Transaction, confirmed: seq<Transaction>)
    ensures NewTransactions([t], confirmed) == if HasHash(confirmed, t.hash) then [] else [t]
  {
    assert [t][1..] == [];
  }

  /**
   * The filter distributes over concatenation. With `NewTransactionsSingle`
   * this fixes the result entry by entry, in page order.
   */
  lemma {:induction false} NewTransactionsAppend(a: seq<Transaction>, b: seq<Transaction>, confirmed: seq<Transaction>)
    ensures NewTransactions(a + b, confirmed) == NewTransactions(a, confirmed) + NewTransactions(b, confirmed)
    decreases |a|
  {
    if a == [] {
      assert a + b == b;
    } else {
      assert (a + b)[0] == a[0] && (a + b)[1..] == a[1..] + b;
      NewTransactionsAppend(a[1..], b, confirmed);
    }
  }

  /** Each page entry with an unknown hash is kept as often as the page holds it; the others never. */
  lemma {:induction false} NewTransactionsCount(data: seq<Transaction>, confirmed: seq<Transaction>, t: Transaction)
    ensures multiset(NewTransactions(data, confirmed))[t]
            == if HasHash(confirmed, t.hash) then 0 else multiset(data)[t]
    decreases |data|
  {
    if data != [] {
      NewTransactionsCount(data[1..], confirmed, t);
      assert data == [data[0]] + data[1..];
      assert multiset(data) == multiset{data[0]} + multiset(data[1..]);
    }
  }

  /** A page without repeated hashes gives new entries without repeated hashes. */
  lemma {:induction false} NewTransactionsUnique(data: seq<Transaction>, confirmed: seq<Transaction>)
    requires UniqueHashes(data)
    ensures UniqueHashes(NewTransactions(data, confirmed))
    decreases |data|
  {
    if data != [] {
      assert UniqueHashes(data[1..]) by {
        forall i, j | 0 <= i < j < |data| - 1 ensures data[1..][i].hash != data[1..][j].hash {
          assert data[1..][i] == data[i + 1] && data[1..][j] == data[j + 1];
        }
      }
      NewTransactionsUnique(data[1..], confirmed);
      var rest := NewTransactions(data[1..], confirmed);
      if !HasHash(confirmed, data[0].hash) {
        var r := [data[0]] + rest;
        forall i, j | 0 <= i < j < |r| ensures r[i].hash != r[j].hash {
          assert r[j] == rest[j - 1];
          if i == 0 {
            assert rest[j - 1] in data[1..];
            var k :| 0 <= k < |data| - 1 && data[1..][k] == rest[j - 1];
            assert data[k + 1] == rest[j - 1];
          } else {
            assert r[i] == rest[i - 1];
          }
        }
      }
    }
  }

  /** Joining two lists without repeated hashes and without shared hashes. */
  lemma {:induction false} UniqueHashesAppend(a: seq<Transaction>, b: seq<Transaction>)
    requires UniqueHashes(a) && UniqueHashes(b)
    requires forall t :: t in b ==> !HasHash(a, t.hash)
    ensures UniqueHashes(a + b) && UniqueHashes(b + a)
  {
    forall i, j | 0 <= i < j < |a + b| ensures (a + b)[i].hash != (a + b)[j].hash {
      if i < |a| && j >= |a| {
        assert (a + b)[j] == b[j - |a|] && b[j - |a|] in b;
        assert (a + b)[i] in a;
      }
    }
    forall i, j | 0 <= i < j < |b + a| ensures (b + a)[i].hash != (b + a)[j].hash {
      if i < |b| && j >= |b| {
        assert (b + a)[i] == b[i] && b[i] in b;
        assert (b + a)[j] in a;
      }
    }
  }

  /** What `fetchAddressConfirmedTransactions` makes of the list when `page` brings `data`. */
  function MergePage(state: ConfirmedTransactions, page: int, data: seq<Transaction>): (r: ConfirmedTransactions)
    ensures |state.confirmed| <= |r.confirmed| <= |state.confirmed| + |data|
    ensures r.loadedPage == state.loadedPage || r.loadedPage == page
  {
    var confirmed := state.confirmed;
    var isInitialData := page == 1 && |data| > 0 && |confirmed| == 0;
    var latestTxHashIsNew := page == 1 && |data| > 0 && |confirmed| > 0 && data[0].hash != confirmed[0].hash;
    if isInitialData then
      ConfirmedTransactions(data, 1)
    else if latestTxHashIsNew || page > 1 then
      var newTransactions := NewTransactions(data, confirmed);
      ConfirmedTransactions(
        if page > 1 then confirmed + newTransactions else newTransactions + confirmed,
        if page > 1 then page else state.loadedPage)
    else
      state
  }

  /** The first page for an address with no transactions yet replaces the list. */
  lemma {:induction false} MergeInitialPage(state: ConfirmedTransactions, data: seq<Transaction>)
    requires state.confirmed == [] && data != []
    ensures MergePage(state, 1, data) == ConfirmedTransactions(data, 1)
  {
  }

  /**
   * A later page appends, in page order, exactly its entries whose hash is
   * not yet known, and becomes the loaded page.
   */
  lemma {:induction false} MergeLaterPage(state: ConfirmedTransactions, page: int, data: seq<Transaction>)
    requires page > 1
    ensures var r := MergePage(state, page, data);
            && r.loadedPage == page
            && |state.confirmed| <= |r.confirmed|
            && r.confirmed == state.confirmed + NewTransactions(data, state.confirmed)
            && (forall t :: t in r.confirmed[|state.confirmed|..] <==> t in data && !HasHash(state.confirmed, t.hash))
  {
    var r := MergePage(state, page, data);
    assert r.confirmed[|state.confirmed|..] == NewTransactions(data, state.confirmed);
  }

  /**
   * A first page whose newest hash differs from the current newest puts the
   * unknown entries in front and keeps the loaded page.
   */
  lemma {:induction false} MergeNewerFirstPage(state: ConfirmedTransactions, data: seq<Transaction>)
    requires data != [] && state.confirmed != [] && data[0].hash != state.confirmed[0].hash
    ensures var r := MergePage(state, 1, data);
            var k := |r.confirmed| - |state.confirmed|;
            && r.loadedPage == state.loadedPage
            && k >= 0
            && r.confirmed == NewTransactions(data, state.confirmed) + state.confirmed
            && r.confirmed[k..] == state.confirmed
            && (forall t :: t in r.confirmed[..k] <==> t in data && !HasHash(state.confirmed, t.hash))
            && (!HasHash(state.confirmed, data[0].hash) ==> r.confirmed[0] == data[0])
  {
    var r := MergePage(state, 1, data);
    var added := NewTransactions(data, state.confirmed);
    assert r.confirmed == added + state.confirmed;
    assert r.confirmed[..|added|] == added;
  }

  /**
   * A first page that is empty or starts with the newest known hash, or a
   * page number below 1, changes nothing.
   */
  lemma {:induction false} MergeNothingNew(state: ConfirmedTransactions, page: int, data: seq<Transaction>)
    requires page <= 1
    requires page < 1 || data == [] || (state.confirmed != [] && data[0].hash == state.confirmed[0].hash)
    ensures MergePage(state, page, data) == state
  {
  }

  /**
   * The merge never loses a transaction: the old list is a prefix or a
   * suffix of the new one, and every entry added around it has a hash that
   * the old list did not have.
   */
  lemma {:induction false} MergeKeepsAndAddsFresh(state: ConfirmedTransactions, page: int, data: seq<Transaction>)
    ensures var old_ := state.confirmed;
            var r := MergePage(state, page, data).confirmed;
            var k := |r| - |old_|;
            && k >= 0
            && ((r[..|old_|] == old_ && forall i :: |old_| <= i < |r| ==> !HasHash(old_, r[i].hash))
                || (r[k..] == old_ && forall i :: 0 <= i < k ==> !HasHash(old_, r[i].hash)))
  {
    var old_ := state.confirmed;
    var added := NewTransactions(data, old_);
    if page > 1 {
      AppendedFresh(old_, added);
    } else if page == 1 && |data| > 0 && |old_| > 0 && data[0].hash != old_[0].hash {
      PrependedFresh(old_, added);
    }
  }

  lemma {:induction false} AppendedFresh(old_: seq<Transaction>, added: seq<Transaction>)
    requires forall t :: t in added ==> !HasHash(old_, t.hash)
    ensures var r := old_ + added;
            r[..|old_|] == old_ && forall i :: |old_| <= i < |r| ==> !HasHash(old_, r[i].hash)
  {
    var r := old_ + added;
    assert forall i :: |old_| <= i < |r| ==> r[i] == added[i - |old_|];
  }

  lemma {:induction false} PrependedFresh(old_: seq<Transaction>, added: seq<Transaction>)
    requires forall t :: t in added ==> !HasHash(old_, t.hash)
    ensures var r := added + old_;
            r[|added|..] == old_ && forall i :: 0 <= i < |added| ==> !HasHash(old_, r[i].hash)
  {
    var r := added + old_;
    assert forall i :: 0 <= i < |added| ==> r[i] == added[i];
  }

  /** Merging keeps the hashes of the list unique when the page's are. */
  lemma {:induction false} MergeKeepsHashesUnique(state: ConfirmedTransactions, page: int, data: seq<Transaction>)
    requires UniqueHashes(state.confirmed) && UniqueHashes(data)
    ensures UniqueHashes(MergePage(state, page, data).confirmed)
  {
    var added := NewTransactions(data, state.confirmed);
    NewTransactionsUnique(data, state.confirmed);
    UniqueHashesAppend(state.confirmed, added);
  }

  /** Once a page is loaded, the next page appends and advances `loadedPage` by one. */
  lemma {:induction false} NextPageAdvances(state: ConfirmedTransactions, data: seq<Transaction>)
    requires state.loadedPage >= 1
    ensures var r := MergePage(state, state.loadedPage + 1, data);
            && r.loadedPage == state.loadedPage + 1
            && |state.confirmed| <= |r.confirmed|
            && r.confirmed[..|state.confirmed|] == state.confirmed
  {
    MergeLaterPage(state, state.loadedPage + 1, data);
  }

  // ---------------------------------------------------------------------
  // The address record
  // ---------------------------------------------------------------------

  /** The fields of an address that the API client updates in place. */
  class Address {
    const hash: string
    var details: Option<AddressDetails>
    var availableBalance: int
    var confirmed: seq<Transaction>
    var loadedPage: int
    var lastUsed: int
    var pendingTransactions: seq<PendingTransaction>

    function Transactions(): ConfirmedTransactions
      reads this
    {
      ConfirmedTransactions(confirmed, loadedPage)
    }

    /** `fetchAddressDetails` once the explorer has answered with `data`. */
    method FetchAddressDetails(data: AddressDetails) returns (r: AddressDetails)
      modifies this`details, this`availableBalance
      ensures r == data && details == Some(data)
      ensures availableBalance == AvailableBalance(old(availableBalance), data)
    {
      details := Some(data);
      if data.balance.Some? {
        availableBalance := data.balance.value;
      }
      if data.lockedBalance.Some? {
        availableBalance := availableBalance - data.lockedBalance.value;
      }
      r := data;
    }

    /** `fetchAddressConfirmedTransactions` once the explorer has answered page `page` with `data`. */
    method FetchConfirmedTransactions(page: int, data: seq<Transaction>) returns (r: seq<Transaction>)
      modifies this`confirmed, this`loadedPage, this`lastUsed
      ensures r == data
      ensures Transactions() == MergePage(old(Transactions()), page, data)
      ensures confirmed != [] ==> lastUsed == confirmed[0].timestamp
      ensures confirmed == [] ==> lastUsed == old(lastUsed)
    {
      var isInitialData := page == 1 && |data| > 0 && |confirmed| == 0;
      var latestTxHashIsNew := page == 1 && |data| > 0 && |confirmed| > 0 && data[0].hash != confirmed[0].hash;
      if isInitialData {
        confirmed := data;
        loadedPage := 1;
      } else if latestTxHashIsNew || page > 1 {
        var newTransactions := NewTransactions(data, confirmed);
        confirmed := if page > 1 then confirmed + newTransactions else newTransactions + confirmed;
        if page > 1 {
          loadedPage := page;
        }
      }
      lastUsed := if |confirmed| > 0 then confirmed[0].timestamp else lastUsed;
      r := data;
    }

    /** `fetchAddressConfirmedTransactionsNextPage`: asks for page `loadedPage + 1`. */
    method FetchConfirmedTransactionsNextPage(data: seq<Transaction>)
      modifies this`confirmed, this`loadedPage, this`lastUsed
      ensures Transactions() == MergePage(old(Transactions()), old(loadedPage) + 1, data)
      ensures confirmed != [] ==> lastUsed == confirmed[0].timestamp
      ensures confirmed == [] ==> lastUsed == old(lastUsed)
    {
      var _ := FetchConfirmedTransactions(loadedPage + 1, data);
    }

    /**
     * `signAndSendTransaction` once the node has answered: a pending
     * transaction is recorded only when the response carries data.
     */
    method SignAndSendTransaction(
      response: Option<SentTransaction>, toAddressHash: string, txType: string,
      network: string, amount: Option<int>, now: int)
      returns (r: Option<SentTransaction>)
      modifies this`pendingTransactions
      ensures r == response
      ensures response.None? ==> pendingTransactions == old(pendingTransactions)
      ensures response.Some? ==>
                pendingTransactions == old(pendingTransactions) + [PendingTransaction(
                  response.value.txId, hash, toAddressHash, now, amount, txType, network)]
    {
      if response.Some? {
        pendingTransactions := pendingTransactions + [PendingTransaction(
          response.value.txId, hash, toAddressHash, now, amount, txType, network)];
      }
      r := response;
    }
  }
}
