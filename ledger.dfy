/** The transaction ledger: what it records for a wallet, and the history
    query behind getWalletTransactions (entries of one wallet, createdAt
    descending, at most 50). */
module Ledger {
  import opened WalletTypes

  /** `take: 50` of getWalletTransactions. */
  const HistoryLimit: nat := 50

  /** The net amount the ledger records for wallet `id`. */
  function LedgerSum(l: seq<Tx>, id: WalletId): real {
    if l == [] then 0.0
    else LedgerSum(l[..|l| - 1], id) + if l[|l| - 1].walletId == id then l[|l| - 1].amount else 0.0
  }

  lemma LedgerSumAppend(l: seq<Tx>, t: Tx, id: WalletId)
    ensures LedgerSum(l + [t], id) == LedgerSum(l, id) + if t.walletId == id then t.amount else 0.0
  {
    assert (l + [t])[..|l|] == l;
  }

  lemma {:induction false} LedgerSumConcat(a: seq<Tx>, b: seq<Tx>, id: WalletId)
    ensures LedgerSum(a + b, id) == LedgerSum(a, id) + LedgerSum(b, id)
  {
    if b == [] {
      assert a + b == a;
    } else {
      var b' := b[..|b| - 1];
      var t := b[|b| - 1];
      assert a + b == (a + b') + [t];
      LedgerSumAppend(a + b', t, id);
      LedgerSumConcat(a, b', id);
    }
  }

  /** A wallet the ledger never mentions has a net amount of zero. */
  lemma {:induction false} LedgerSumAbsent(l: seq<Tx>, id: WalletId)
    requires forall i :: 0 <= i < |l| ==> l[i].walletId != id
    ensures LedgerSum(l, id) == 0.0
  {
    if l != [] {
      LedgerSumAbsent(l[..|l| - 1], id);
    }
  }

  /** The net of all amounts in a run of entries. */
  function Net(l: seq<Tx>): real {
    if l == [] then 0.0 else Net(l[..|l| - 1]) + l[|l| - 1].amount
  }

  lemma NetAppend(l: seq<Tx>, t: Tx)
    ensures Net(l + [t]) == Net(l) + t.amount
  {
    assert (l + [t])[..|l|] == l;
  }

  lemma {:induction false} NetConcat(a: seq<Tx>, b: seq<Tx>)
    ensures Net(a + b) == Net(a) + Net(b)
  {
    if b == [] {
      assert a + b == a;
    } else {
      var b' := b[..|b| - 1];
      assert a + b == (a + b') + [b[|b| - 1]];
      NetAppend(a + b', b[|b| - 1]);
      NetConcat(a, b');
    }
  }

  /** Entries were written in strictly increasing createdAt order. */
  ghost predicate Chronological(l: seq<Tx>) {
    forall i, j :: 0 <= i < j < |l| ==> l[i].createdAt < l[j].createdAt
  }

  /** The entries of wallet `id`, newest first. */
  function NewestFirst(l: seq<Tx>, id: WalletId): (r: seq<Tx>)
    ensures forall t :: t in r <==> t in l && t.walletId == id
  {
    if l == [] then []
    else
      var init, last := l[..|l| - 1], l[|l| - 1];
      assert l == init + [last];
      (if last.walletId == id then [last] else []) + NewestFirst(init, id)
  }

  /** Strictly decreasing createdAt: newest first. */
  ghost predicate Descending(s: seq<Tx>) {
    forall i, j :: 0 <= i < j < |s| ==> s[i].createdAt > s[j].createdAt
  }

  /** Putting an entry newer than all of a descending history in front keeps
      it descending. */
  lemma ConsDescending(t: Tx, rest: seq<Tx>)
    requires Descending(rest)
    requires forall k :: 0 <= k < |rest| ==> rest[k].createdAt < t.createdAt
    ensures Descending([t] + rest)
  {
    var r := [t] + rest;
    forall i, j | 0 <= i < j < |r| ensures r[i].createdAt > r[j].createdAt {
      assert r[j] == rest[j - 1];
      if i > 0 { assert r[i] == rest[i - 1]; }
    }
  }

  /** In a chronological ledger every earlier entry is older than the last one. */
  lemma OlderThanLast(l: seq<Tx>, id: WalletId)
    requires Chronological(l) && l != []
    ensures Chronological(l[..|l| - 1])
    ensures var rest := NewestFirst(l[..|l| - 1], id);
            forall k :: 0 <= k < |rest| ==> rest[k].createdAt < l[|l| - 1].createdAt
  {
    var init := l[..|l| - 1];
    var rest := NewestFirst(init, id);
    forall k | 0 <= k < |rest| ensures rest[k].createdAt < l[|l| - 1].createdAt {
      assert rest[k] in init;
      var p :| 0 <= p < |init| && init[p] == rest[k];
      assert l[p] == init[p];
    }
  }

  lemma {:induction false} NewestFirstDescending(l: seq<Tx>, id: WalletId)
    requires Chronological(l)
    ensures Descending(NewestFirst(l, id))
  {
    if l != [] {
      var init, last := l[..|l| - 1], l[|l| - 1];
      OlderThanLast(l, id);
      NewestFirstDescending(init, id);
      var rest := NewestFirst(init, id);
      if last.walletId == id {
        ConsDescending(last, rest);
        assert NewestFirst(l, id) == [last] + rest;
      } else {
        assert NewestFirst(l, id) == rest;
      }
    }
  }

  /** The history query: the newest `limit` entries of wallet `id`, newest first. */
  function Recent(l: seq<Tx>, id: WalletId, limit: nat): (r: seq<Tx>)
    ensures |r| <= limit
    ensures forall t :: t in r ==> t in l && t.walletId == id
    ensures |r| == limit || forall t :: t in l && t.walletId == id ==> t in r
  {
    var h := NewestFirst(l, id);
    if |h| <= limit then h else h[..limit]
  }

  /** A prefix of a descending history is descending, and every entry cut
      off is older than every entry kept. */
  lemma PrefixIsNewest(h: seq<Tx>, n: nat)
    requires Descending(h) && n <= |h|
    ensures Descending(h[..n])
    ensures forall t, x :: t in h && t !in h[..n] && x in h[..n] ==> t.createdAt < x.createdAt
  {
    var r := h[..n];
    assert forall i :: 0 <= i < n ==> r[i] == h[i];
    forall t, x | t in h && t !in r && x in r
      ensures t.createdAt < x.createdAt
    {
      var k :| 0 <= k < |h| && h[k] == t;
      var m :| 0 <= m < n && r[m] == x;
      if k < n {
        assert r[k] == t;
      } else {
        assert h[m] == x;
      }
    }
  }

  /** On a chronological ledger the page is in createdAt descending order and
      every entry of the wallet left off the page is older than all entries on it. */
  lemma RecentIsNewest(l: seq<Tx>, id: WalletId, limit: nat)
    requires Chronological(l)
    ensures var r := Recent(l, id, limit);
            Descending(r) && forall t, x :: t in l && t.walletId == id && t !in r && x in r ==> t.createdAt < x.createdAt
  {
    var h := NewestFirst(l, id);
    var r := Recent(l, id, limit);
    NewestFirstDescending(l, id);
    assert r == h[..|r|];
    PrefixIsNewest(h, |r|);
  }
}
