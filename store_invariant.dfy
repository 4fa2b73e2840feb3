/** The invariant the wallet service keeps over its two tables, and how each
    kind of write it performs preserves it. */
module StoreInvariant {
  import opened WalletTypes
  import opened StoreQueries
  import opened Ledger
  import opened SplitRules

  /** The ledger is in write order, every stamp is older than `clock`, and
      every entry names an id already issued. */
  ghost predicate LedgerOk(l: seq<Tx>, next: WalletId, clock: nat) {
    Chronological(l)
    && forall i :: 0 <= i < |l| ==> l[i].createdAt < clock && l[i].walletId < next
  }

  /** Ids are unique and already issued, balances are non-negative, and each
      balance is exactly the net of the ledger entries of its wallet. */
  ghost predicate Consistent(ws: seq<Wallet>, l: seq<Tx>, next: WalletId, clock: nat) {
    UniqueIds(ws) && LedgerOk(l, next, clock)
    && forall i :: 0 <= i < |ws| ==>
         ws[i].id < next && ws[i].balance >= 0.0 && ws[i].balance == LedgerSum(l, ws[i].id)
  }

  /** Writing one entry stamped with the clock keeps the ledger in order. */
  lemma LedgerOkAppend(l: seq<Tx>, next: WalletId, clock: nat, t: Tx)
    requires LedgerOk(l, next, clock) && t.createdAt == clock && t.walletId < next
    ensures LedgerOk(l + [t], next, clock + 1)
  {
    var l' := l + [t];
    assert forall i :: 0 <= i < |l| ==> l'[i] == l[i];
  }

  /** Writing the SPLIT entry and then the TRANSFER entries, each stamped
      with the clock, keeps the ledger in order. */
  lemma LedgerOkSplit(l: seq<Tx>, next: WalletId, clock: nat, mainId: WalletId, u: UserId, total: real,
                      splits: seq<SplitEntry>, base: real)
    requires LedgerOk(l, next, clock) && mainId < next
    requires forall k :: 0 <= k < |splits| ==> splits[k].walletId < next
    ensures LedgerOk(l + SplitLog(mainId, u, total, splits, base, clock), next, clock + 1 + |splits|)
  {
    var t := Tx(mainId, u, -total, Split, clock);
    var tr := Transfers(splits, u, base, clock + 1);
    var l' := l + [t] + tr;
    assert l + SplitLog(mainId, u, total, splits, base, clock) == l';
    TransfersAt(splits, u, base, clock + 1);
    assert forall i :: 0 <= i < |l'| ==> l'[i] == if i < |l| then l[i] else if i == |l| then t else tr[i - |l| - 1];
  }

  /** Adding an empty wallet under the next fresh id keeps the invariant. */
  lemma AddConsistent(ws: seq<Wallet>, l: seq<Tx>, next: WalletId, clock: nat, w: Wallet)
    requires Consistent(ws, l, next, clock) && w.id == next && w.balance == 0.0
    ensures Consistent(ws + [w], l, next + 1, clock)
  {
    LedgerSumAbsent(l, next);
    var r := ws + [w];
    assert forall i :: 0 <= i < |ws| ==> r[i] == ws[i];
  }

  /** Rewriting a wallet's other fields keeps the invariant. */
  lemma ReplaceConsistent(ws: seq<Wallet>, l: seq<Tx>, next: WalletId, clock: nat, k: nat, w: Wallet)
    requires Consistent(ws, l, next, clock) && k < |ws|
    requires w.id == ws[k].id && w.balance == ws[k].balance
    ensures Consistent(ws[k := w], l, next, clock)
  {
  }

  /** Removing a wallet keeps the invariant. */
  lemma RemoveConsistent(ws: seq<Wallet>, l: seq<Tx>, next: WalletId, clock: nat, k: nat)
    requires Consistent(ws, l, next, clock) && k < |ws|
    ensures Consistent(ws[..k] + ws[k + 1..], l, next, clock)
  {
    var r := ws[..k] + ws[k + 1..];
    assert forall i :: 0 <= i < |r| ==> r[i] == ws[if i < k then i else i + 1];
  }

  /** Crediting a positive deposit and recording it keeps the invariant. */
  lemma DepositConsistent(ws: seq<Wallet>, l: seq<Tx>, next: WalletId, clock: nat, k: nat, u: UserId, amount: real)
    requires Consistent(ws, l, next, clock) && k < |ws| && amount > 0.0
    ensures Consistent(ws[k := ws[k].(balance := ws[k].balance + amount)],
                       l + [Tx(ws[k].id, u, amount, Deposit, clock)], next, clock + 1)
  {
    var t := Tx(ws[k].id, u, amount, Deposit, clock);
    var r := ws[k := ws[k].(balance := ws[k].balance + amount)];
    LedgerOkAppend(l, next, clock, t);
    forall i | 0 <= i < |r|
      ensures r[i].balance >= 0.0 && r[i].balance == LedgerSum(l + [t], r[i].id)
    {
      LedgerSumAppend(l, t, r[i].id);
    }
  }

  /** A validated split, written as one SPLIT entry and the TRANSFER entries,
      keeps the invariant. */
  lemma SplitConsistent(ws: seq<Wallet>, l: seq<Tx>, next: WalletId, clock: nat, m: nat, u: UserId,
                        splits: seq<SplitEntry>, base: real, total: real)
    requires Consistent(ws, l, next, clock) && m < |ws| && ws[m].isMain && base == ws[m].balance
    requires Applicable(ws, m, splits)
    requires 0.0 <= total <= base
    ensures Consistent(Credited(ws, ws[m].id, total, splits, base),
                       l + SplitLog(ws[m].id, u, total, splits, base, clock),
                       next, clock + 1 + |splits|)
  {
    forall k | 0 <= k < |splits| ensures splits[k].walletId < next {
      var p :| 0 <= p < |ws| && Matches(ws[p], ById(splits[k].walletId));
    }
    LedgerOkSplit(l, next, clock, ws[m].id, u, total, splits, base);
    SplitKeepsBalancesRecorded(ws, l, m, u, splits, base, total, clock);
    CreditedIds(ws, ws[m].id, total, splits, base);
  }

  /** Adding a wallet that is not a second main wallet and does not repeat a
      name of the user keeps the per-user rules. */
  lemma AddKeepsRules(ws: seq<Wallet>, w: Wallet, u: UserId)
    requires w.userId == u && w.isMain ==> !Exists(ws, MainOf(u))
    requires w.userId == u ==> !Exists(ws, Named(u, w.name))
    ensures AtMostOneMain(ws, u) ==> AtMostOneMain(ws + [w], u)
    ensures NamesUnique(ws, u) ==> NamesUnique(ws + [w], u)
  {
    var r := ws + [w];
    assert forall i :: 0 <= i < |ws| ==> r[i] == ws[i];
    if w.userId == u {
      assert forall i :: 0 <= i < |ws| ==> !Matches(ws[i], Named(u, w.name));
    }
  }

  /** Rewriting a wallet keeps the per-user rules when a new name is not
      another wallet's name of the same user; the main-wallet rule needs the
      main flag unchanged. */
  lemma ReplaceKeepsRules(ws: seq<Wallet>, k: nat, w: Wallet, u: UserId)
    requires UniqueIds(ws) && k < |ws| && w.id == ws[k].id && w.userId == ws[k].userId
    requires w.name != ws[k].name ==> !Exists(ws, NamedExcept(w.userId, w.name, w.id))
    ensures w.isMain == ws[k].isMain && AtMostOneMain(ws, u) ==> AtMostOneMain(ws[k := w], u)
    ensures NamesUnique(ws, u) ==> NamesUnique(ws[k := w], u)
  {
    if w.name != ws[k].name {
      assert forall i :: 0 <= i < |ws| ==> !Matches(ws[i], NamedExcept(w.userId, w.name, w.id));
    }
  }
}
