/** The arithmetic and the checks of splitFunds: how each split entry is
    validated and resolved to an amount against the main balance read once at
    the start, and what the transfer does to balances and to the ledger. */
module SplitRules {
  import opened WalletTypes
  import opened StoreQueries
  import opened Ledger

  /** The amount an entry moves: its amount when truthy, otherwise its
      percentage of `base` when truthy, otherwise nothing. */
  function Resolve(s: SplitEntry, base: real): real {
    if Truthy(s.amount) then s.amount.value
    else if Truthy(s.percentage) then base * s.percentage.value / 100.0
    else 0.0
  }

  /** The entry names a positive amount, or (with no truthy amount) a
      percentage in (0, 100]. */
  predicate ValidShare(s: SplitEntry) {
    if Truthy(s.amount) then s.amount.value > 0.0
    else Truthy(s.percentage) && 0.0 < s.percentage.value <= 100.0
  }

  /** Wallet `id` belongs to `u` and is not a main wallet. */
  ghost predicate OwnedNonMain(ws: seq<Wallet>, u: UserId, id: WalletId) {
    exists i :: 0 <= i < |ws| && Matches(ws[i], Owned(id, u)) && !ws[i].isMain
  }

  /** The checks of one entry, in the order the service makes them: target
      owned by the user, target not main, then amount or percentage. */
  function CheckEntry(ws: seq<Wallet>, u: UserId, s: SplitEntry, base: real): (r: Result<real, Error>)
    ensures r.Ok? ==> r.value == Resolve(s, base) && ValidShare(s) && OwnedNonMain(ws, u, s.walletId)
    ensures r.Ok? && base >= 0.0 ==> r.value >= 0.0
  {
    match FindFirst(ws, Owned(s.walletId, u))
    case None => Err(TargetWalletNotFound(s.walletId))
    case Some(k) =>
      if ws[k].isMain then Err(CannotSplitToMain)
      else if Truthy(s.amount) then
        if s.amount.value <= 0.0 then Err(NonPositiveSplitAmount) else Ok(s.amount.value)
      else if Truthy(s.percentage) then
        var p := s.percentage.value;
        if p <= 0.0 || p > 100.0 then Err(PercentageOutOfRange)
        else
          assert base >= 0.0 ==> base * p >= 0.0;
          Ok(base * p / 100.0)
      else Err(MissingAmountOrPercentage)
  }

  /** The error of each failed check, in the order the checks are made: a
      target the user does not own, the main wallet as target, a truthy
      amount that is not positive, a percentage outside (0, 100], and an
      entry with neither. With unique ids, an entry naming a non-main wallet
      of the user with a valid share passes. */
  lemma CheckEntryComplete(ws: seq<Wallet>, u: UserId, s: SplitEntry, base: real)
    ensures !Exists(ws, Owned(s.walletId, u)) ==> CheckEntry(ws, u, s, base) == Err(TargetWalletNotFound(s.walletId))
    ensures var f := FindFirst(ws, Owned(s.walletId, u));
            && (f.Some? && ws[f.value].isMain ==> CheckEntry(ws, u, s, base) == Err(CannotSplitToMain))
            && (f.Some? && !ws[f.value].isMain && Truthy(s.amount) && s.amount.value <= 0.0
                ==> CheckEntry(ws, u, s, base) == Err(NonPositiveSplitAmount))
            && (f.Some? && !ws[f.value].isMain && !Truthy(s.amount) && Truthy(s.percentage)
                && (s.percentage.value <= 0.0 || s.percentage.value > 100.0)
                ==> CheckEntry(ws, u, s, base) == Err(PercentageOutOfRange))
            && (f.Some? && !ws[f.value].isMain && !Truthy(s.amount) && !Truthy(s.percentage)
                ==> CheckEntry(ws, u, s, base) == Err(MissingAmountOrPercentage))
    ensures UniqueIds(ws) && OwnedNonMain(ws, u, s.walletId) && ValidShare(s) ==> CheckEntry(ws, u, s, base).Ok?
  {
    if UniqueIds(ws) && OwnedNonMain(ws, u, s.walletId) {
      var p :| 0 <= p < |ws| && Matches(ws[p], Owned(s.walletId, u)) && !ws[p].isMain;
      var k := FindFirst(ws, Owned(s.walletId, u)).value;
      assert ws[k].id == ws[p].id;
    }
  }

  /** The sum of the resolved amounts. */
  function Total(splits: seq<SplitEntry>, base: real): real {
    if splits == [] then 0.0
    else Total(splits[..|splits| - 1], base) + Resolve(splits[|splits| - 1], base)
  }

  /** The validation loop over the first `n` entries: the first failing
      entry's error, or the running total. */
  function Validated(ws: seq<Wallet>, u: UserId, splits: seq<SplitEntry>, base: real, n: nat): (r: Result<real, Error>)
    requires n <= |splits|
  {
    if n == 0 then Ok(0.0)
    else
      match Validated(ws, u, splits, base, n - 1)
      case Err(e) => Err(e)
      case Ok(t) =>
        match CheckEntry(ws, u, splits[n - 1], base)
        case Err(e) => Err(e)
        case Ok(a) => Ok(t + a)
  }

  /** A successful validation of the first `n` entries yields their total,
      which is non-negative when the base is. */
  lemma {:induction false} ValidatedSum(ws: seq<Wallet>, u: UserId, splits: seq<SplitEntry>, base: real, n: nat)
    requires n <= |splits|
    ensures var r := Validated(ws, u, splits, base, n);
            r.Ok? ==> r.value == Total(splits[..n], base) && (base >= 0.0 ==> r.value >= 0.0)
  {
    if n > 0 {
      ValidatedSum(ws, u, splits, base, n - 1);
      assert splits[..n][..n - 1] == splits[..n - 1];
    }
  }

  /** A successful validation of all entries yields their total. */
  lemma ValidatedTotal(ws: seq<Wallet>, u: UserId, splits: seq<SplitEntry>, base: real)
    ensures var r := Validated(ws, u, splits, base, |splits|);
            r.Ok? ==> r.value == Total(splits, base) && (base >= 0.0 ==> r.value >= 0.0)
  {
    ValidatedSum(ws, u, splits, base, |splits|);
    assert splits[..|splits|] == splits;
  }

  /** Validation succeeds exactly when every entry passes its checks. */
  lemma {:induction false} ValidatedOkIff(ws: seq<Wallet>, u: UserId, splits: seq<SplitEntry>, base: real, n: nat)
    requires n <= |splits|
    ensures Validated(ws, u, splits, base, n).Ok? <==> forall k :: 0 <= k < n ==> CheckEntry(ws, u, splits[k], base).Ok?
  {
    if n > 0 {
      ValidatedOkIff(ws, u, splits, base, n - 1);
      var prev := Validated(ws, u, splits, base, n - 1);
      var c := CheckEntry(ws, u, splits[n - 1], base);
      if prev.Err? {
        var k :| 0 <= k < n - 1 && !CheckEntry(ws, u, splits[k], base).Ok?;
      } else if c.Err? {
        assert !CheckEntry(ws, u, splits[n - 1], base).Ok?;
      } else {
        forall k | 0 <= k < n ensures CheckEntry(ws, u, splits[k], base).Ok? {
          if k == n - 1 {
            assert splits[k] == splits[n - 1];
          }
        }
      }
    }
  }

  /** Entry `k` is the first entry that fails its checks, with error `e`. */
  predicate FirstFailure(ws: seq<Wallet>, u: UserId, splits: seq<SplitEntry>, base: real, k: nat, e: Error) {
    k < |splits| && CheckEntry(ws, u, splits[k], base) == Err(e)
    && forall j :: 0 <= j < k ==> CheckEntry(ws, u, splits[j], base).Ok?
  }

  /** A failed validation reports the error of the first failing entry. */
  lemma {:induction false} ValidatedFirstError(ws: seq<Wallet>, u: UserId, splits: seq<SplitEntry>, base: real, n: nat, e: Error)
    requires n <= |splits|
    requires Validated(ws, u, splits, base, n) == Err(e)
    ensures exists k :: 0 <= k < n && FirstFailure(ws, u, splits, base, k, e)
  {
    assert n > 0;
    var prev := Validated(ws, u, splits, base, n - 1);
    if prev.Err? {
      assert prev == Err(e);
      ValidatedFirstError(ws, u, splits, base, n - 1, e);
      var k :| 0 <= k < n - 1 && FirstFailure(ws, u, splits, base, k, e);
      assert k < n;
    } else {
      ValidatedOkIff(ws, u, splits, base, n - 1);
      assert CheckEntry(ws, u, splits[n - 1], base) == Err(e);
      assert FirstFailure(ws, u, splits, base, n - 1, e);
    }
  }

  /** Once an entry fails, the validation of any longer prefix fails with the same error. */
  lemma {:induction false} ValidatedErrSticks(ws: seq<Wallet>, u: UserId, splits: seq<SplitEntry>, base: real, n: nat, m: nat, e: Error)
    requires n <= m <= |splits|
    requires Validated(ws, u, splits, base, n) == Err(e)
    ensures Validated(ws, u, splits, base, m) == Err(e)
  {
    if m > n {
      ValidatedErrSticks(ws, u, splits, base, n, m - 1, e);
    }
  }

  /** Every entry names a wallet of the table other than the main wallet at
      `m`, with a valid share: what the transfer relies on. */
  ghost predicate Applicable(ws: seq<Wallet>, m: nat, splits: seq<SplitEntry>)
    requires m < |ws|
  {
    forall k :: 0 <= k < |splits| ==>
      Exists(ws, ById(splits[k].walletId)) && splits[k].walletId != ws[m].id && ValidShare(splits[k])
  }

  /** Entries that pass their checks are applicable. */
  lemma ValidatedTargets(ws: seq<Wallet>, u: UserId, splits: seq<SplitEntry>, base: real, m: nat)
    requires UniqueIds(ws) && m < |ws| && ws[m].isMain
    requires Validated(ws, u, splits, base, |splits|).Ok?
    ensures Applicable(ws, m, splits)
  {
    ValidatedOkIff(ws, u, splits, base, |splits|);
    forall k | 0 <= k < |splits|
      ensures Exists(ws, ById(splits[k].walletId)) && splits[k].walletId != ws[m].id && ValidShare(splits[k])
    {
      assert OwnedNonMain(ws, u, splits[k].walletId);
      var p :| 0 <= p < |ws| && Matches(ws[p], Owned(splits[k].walletId, u)) && !ws[p].isMain;
      assert Matches(ws[p], ById(splits[k].walletId));
    }
  }

  /** What the entries credit to wallet `id` (a target named twice is credited twice). */
  function CreditTo(splits: seq<SplitEntry>, id: WalletId, base: real): real {
    if splits == [] then 0.0
    else
      var s := splits[|splits| - 1];
      CreditTo(splits[..|splits| - 1], id, base) + if s.walletId == id then Resolve(s, base) else 0.0
  }

  lemma CreditToAppend(splits: seq<SplitEntry>, s: SplitEntry, id: WalletId, base: real)
    ensures CreditTo(splits + [s], id, base) == CreditTo(splits, id, base) + if s.walletId == id then Resolve(s, base) else 0.0
  {
    assert (splits + [s])[..|splits|] == splits;
  }

  /** A wallet no entry names is credited nothing. */
  lemma {:induction false} CreditToUnnamed(splits: seq<SplitEntry>, id: WalletId, base: real)
    requires forall k :: 0 <= k < |splits| ==> splits[k].walletId != id
    ensures CreditTo(splits, id, base) == 0.0
  {
    if splits != [] {
      CreditToUnnamed(splits[..|splits| - 1], id, base);
    }
  }

  /** A valid share of a non-negative base resolves to a non-negative amount. */
  lemma ResolveNonNegative(s: SplitEntry, base: real)
    requires ValidShare(s) && base >= 0.0
    ensures Resolve(s, base) >= 0.0
  {
    if !Truthy(s.amount) {
      var p := s.percentage.value;
      assert base * p >= 0.0;
    }
  }

  /** Credits of valid shares are never negative when the base is not. */
  lemma {:induction false} CreditToNonNegative(splits: seq<SplitEntry>, id: WalletId, base: real)
    requires base >= 0.0
    requires forall k :: 0 <= k < |splits| ==> ValidShare(splits[k])
    ensures CreditTo(splits, id, base) >= 0.0
  {
    if splits != [] {
      var n := |splits| - 1;
      CreditToNonNegative(splits[..n], id, base);
      ResolveNonNegative(splits[n], base);
    }
  }

  /** The credits summed over all wallets of a table. */
  function SumCredits(ws: seq<Wallet>, splits: seq<SplitEntry>, base: real): real {
    if ws == [] then 0.0
    else SumCredits(ws[..|ws| - 1], splits, base) + CreditTo(splits, ws[|ws| - 1].id, base)
  }

  /** `a` counted once for every wallet of the table whose id is `id`. */
  function PerWallet(ws: seq<Wallet>, id: WalletId, a: real): real {
    if ws == [] then 0.0
    else PerWallet(ws[..|ws| - 1], id, a) + if ws[|ws| - 1].id == id then a else 0.0
  }

  lemma {:induction false} SumCreditsAppendEntry(ws: seq<Wallet>, splits: seq<SplitEntry>, s: SplitEntry, base: real)
    ensures SumCredits(ws, splits + [s], base)
            == SumCredits(ws, splits, base) + PerWallet(ws, s.walletId, Resolve(s, base))
  {
    if ws != [] {
      var init := ws[..|ws| - 1];
      SumCreditsAppendEntry(init, splits, s, base);
      CreditToAppend(splits, s, ws[|ws| - 1].id, base);
    }
  }

  /** In a table with unique ids, an existing id is counted once. */
  lemma {:induction false} PerWalletUniqueId(ws: seq<Wallet>, id: WalletId, a: real)
    requires UniqueIds(ws) && Exists(ws, ById(id))
    ensures PerWallet(ws, id, a) == a
  {
    var init, last := ws[..|ws| - 1], ws[|ws| - 1];
    assert forall j :: 0 <= j < |init| ==> init[j] == ws[j];
    if last.id == id {
      PerWalletAbsent(init, id, a);
    } else {
      PerWalletUniqueId(init, id, a);
    }
  }

  lemma {:induction false} PerWalletAbsent(ws: seq<Wallet>, id: WalletId, a: real)
    requires forall j :: 0 <= j < |ws| ==> ws[j].id != id
    ensures PerWallet(ws, id, a) == 0.0
  {
    if ws != [] {
      PerWalletAbsent(ws[..|ws| - 1], id, a);
    }
  }

  /** Conservation of the transfers: when every target is a wallet of the
      table, the credits over all wallets add up to the total. */
  lemma {:induction false} CreditsAddUpToTotal(ws: seq<Wallet>, splits: seq<SplitEntry>, base: real)
    requires UniqueIds(ws)
    requires forall k :: 0 <= k < |splits| ==> Exists(ws, ById(splits[k].walletId))
    ensures SumCredits(ws, splits, base) == Total(splits, base)
  {
    if splits == [] {
      if ws != [] {
        CreditsAddUpToTotal(ws[..|ws| - 1], splits, base);
      }
    } else {
      var init, s := splits[..|splits| - 1], splits[|splits| - 1];
      assert splits == init + [s];
      CreditsAddUpToTotal(ws, init, base);
      SumCreditsAppendEntry(ws, init, s, base);
      PerWalletUniqueId(ws, s.walletId, Resolve(s, base));
    }
  }

  /** One wallet after the transfer: the debit of `total` on the main wallet
      and the credits of the entries. */
  function Adjust(w: Wallet, mainId: WalletId, total: real, splits: seq<SplitEntry>, base: real): Wallet {
    w.(balance := w.balance - (if w.id == mainId then total else 0.0) + CreditTo(splits, w.id, base))
  }

  /** The wallet table after the transfer. */
  function Credited(ws: seq<Wallet>, mainId: WalletId, total: real, splits: seq<SplitEntry>, base: real): (r: seq<Wallet>)
    ensures |r| == |ws|
  {
    if ws == [] then []
    else Credited(ws[..|ws| - 1], mainId, total, splits, base) + [Adjust(ws[|ws| - 1], mainId, total, splits, base)]
  }

  lemma {:induction false} CreditedAt(ws: seq<Wallet>, mainId: WalletId, total: real, splits: seq<SplitEntry>, base: real)
    ensures forall i :: 0 <= i < |ws| ==> Credited(ws, mainId, total, splits, base)[i] == Adjust(ws[i], mainId, total, splits, base)
  {
    if ws != [] {
      CreditedAt(ws[..|ws| - 1], mainId, total, splits, base);
    }
  }

  /** The transfer changes balances only: every wallet keeps its id. */
  lemma CreditedIds(ws: seq<Wallet>, mainId: WalletId, total: real, splits: seq<SplitEntry>, base: real)
    ensures forall i :: 0 <= i < |ws| ==> Credited(ws, mainId, total, splits, base)[i].id == ws[i].id
  {
    CreditedAt(ws, mainId, total, splits, base);
  }

  /** Before any entry is applied, only the main wallet has changed: it is
      debited the total. */
  lemma CreditedNone(ws: seq<Wallet>, m: nat, total: real, base: real)
    requires UniqueIds(ws) && m < |ws|
    ensures Credited(ws, ws[m].id, total, [], base) == ws[m := ws[m].(balance := ws[m].balance - total)]
  {
    CreditedAt(ws, ws[m].id, total, [], base);
  }

  /** Applying one more entry credits its resolved amount to its target, the
      wallet at position `k`, and changes no other wallet; ids stay unique. */
  lemma CreditedStep(ws: seq<Wallet>, mainId: WalletId, total: real, splits: seq<SplitEntry>, i: nat, base: real, k: nat)
    requires UniqueIds(ws) && i < |splits| && k < |ws| && ws[k].id == splits[i].walletId
    ensures var before := Credited(ws, mainId, total, splits[..i], base);
            && UniqueIds(before) && before[k].id == splits[i].walletId
            && Credited(ws, mainId, total, splits[..i + 1], base)
                 == before[k := before[k].(balance := before[k].balance + Resolve(splits[i], base))]
  {
    assert splits[..i + 1] == splits[..i] + [splits[i]];
    CreditedAt(ws, mainId, total, splits[..i], base);
    CreditedAt(ws, mainId, total, splits[..i + 1], base);
    forall j | 0 <= j < |ws|
      ensures CreditTo(splits[..i + 1], ws[j].id, base)
              == CreditTo(splits[..i], ws[j].id, base) + if j == k then Resolve(splits[i], base) else 0.0
    {
      CreditToAppend(splits[..i], splits[i], ws[j].id, base);
    }
  }

  /** After the transfer the main wallet holds its old balance less the
      total, and every other wallet its old balance plus what the entries
      credit to it. */
  lemma CreditedBalances(ws: seq<Wallet>, m: nat, total: real, splits: seq<SplitEntry>, base: real)
    requires UniqueIds(ws) && m < |ws| && Applicable(ws, m, splits)
    ensures var r := Credited(ws, ws[m].id, total, splits, base);
            && r[m].balance == ws[m].balance - total
            && forall j :: 0 <= j < |ws| && j != m ==> r[j].balance == ws[j].balance + CreditTo(splits, ws[j].id, base)
  {
    CreditedAt(ws, ws[m].id, total, splits, base);
    CreditToUnnamed(splits, ws[m].id, base);
  }

  lemma {:induction false} SumBalancesCredited(ws: seq<Wallet>, mainId: WalletId, total: real, splits: seq<SplitEntry>, base: real)
    ensures SumBalances(Credited(ws, mainId, total, splits, base))
            == SumBalances(ws) - PerWallet(ws, mainId, total) + SumCredits(ws, splits, base)
  {
    if ws != [] {
      var init := ws[..|ws| - 1];
      SumBalancesCredited(init, mainId, total, splits, base);
      var r := Credited(ws, mainId, total, splits, base);
      CreditedAt(ws, mainId, total, splits, base);
      assert r[..|r| - 1] == Credited(init, mainId, total, splits, base);
    }
  }

  /** A successful split moves money and creates none: the debit of the main
      wallet equals the sum of the credits, so the table's total is unchanged. */
  lemma SplitConservesMoney(ws: seq<Wallet>, mainId: WalletId, splits: seq<SplitEntry>, base: real)
    requires UniqueIds(ws) && Exists(ws, ById(mainId))
    requires forall k :: 0 <= k < |splits| ==> Exists(ws, ById(splits[k].walletId))
    ensures SumBalances(Credited(ws, mainId, Total(splits, base), splits, base)) == SumBalances(ws)
  {
    SumBalancesCredited(ws, mainId, Total(splits, base), splits, base);
    PerWalletUniqueId(ws, mainId, Total(splits, base));
    CreditsAddUpToTotal(ws, splits, base);
  }

  /** The TRANSFER entries of a split, one per entry in order, stamped
      `start`, `start + 1`, ... */
  function Transfers(splits: seq<SplitEntry>, u: UserId, base: real, start: nat): (r: seq<Tx>)
    ensures |r| == |splits|
  {
    if splits == [] then []
    else
      var n := |splits| - 1;
      Transfers(splits[..n], u, base, start) + [Tx(splits[n].walletId, u, Resolve(splits[n], base), Transfer, start + n)]
  }

  /** The k-th entry of the transfers is a TRANSFER of the k-th entry's resolved
      amount to its target, stamped `start + k`. */
  lemma {:induction false} TransfersAt(splits: seq<SplitEntry>, u: UserId, base: real, start: nat)
    ensures var r := Transfers(splits, u, base, start);
            forall k :: 0 <= k < |r| ==> r[k] == Tx(splits[k].walletId, u, Resolve(splits[k], base), Transfer, start + k)
  {
    if splits != [] {
      var n := |splits| - 1;
      TransfersAt(splits[..n], u, base, start);
    }
  }

  /** Writing the TRANSFER entry of one more entry after `pre` and the
      earlier ones. */
  lemma TransfersStep(pre: seq<Tx>, splits: seq<SplitEntry>, u: UserId, base: real, start: nat, i: nat)
    requires i < |splits|
    ensures pre + Transfers(splits[..i + 1], u, base, start)
            == pre + Transfers(splits[..i], u, base, start) + [Tx(splits[i].walletId, u, Resolve(splits[i], base), Transfer, start + i)]
  {
    assert splits[..i + 1][..i] == splits[..i];
  }

  /** The ledger entries of one split, stamped from `stamp` on: the SPLIT
      entry debiting `total` from the main wallet, then one TRANSFER entry
      per split entry. */
  function SplitLog(mainId: WalletId, u: UserId, total: real, splits: seq<SplitEntry>, base: real, stamp: nat): (r: seq<Tx>)
    ensures |r| == 1 + |splits|
  {
    [Tx(mainId, u, -total, Split, stamp)] + Transfers(splits, u, base, stamp + 1)
  }

  /** The TRANSFER entries record for each wallet exactly what it is credited. */
  lemma {:induction false} TransfersRecordCredits(splits: seq<SplitEntry>, u: UserId, base: real, start: nat, id: WalletId)
    ensures LedgerSum(Transfers(splits, u, base, start), id) == CreditTo(splits, id, base)
  {
    if splits != [] {
      var n := |splits| - 1;
      TransfersRecordCredits(splits[..n], u, base, start, id);
      LedgerSumAppend(Transfers(splits[..n], u, base, start), Tx(splits[n].walletId, u, Resolve(splits[n], base), Transfer, start + n), id);
    }
  }

  /** The TRANSFER entries add up to the total recorded by the SPLIT entry. */
  lemma {:induction false} TransfersAddUpToTotal(splits: seq<SplitEntry>, u: UserId, base: real, start: nat)
    ensures Net(Transfers(splits, u, base, start)) == Total(splits, base)
  {
    if splits != [] {
      var n := |splits| - 1;
      TransfersAddUpToTotal(splits[..n], u, base, start);
      NetAppend(Transfers(splits[..n], u, base, start), Tx(splits[n].walletId, u, Resolve(splits[n], base), Transfer, start + n));
    }
  }

  /** The ledger entries of a split net to zero: the SPLIT entry of `-total`
      is balanced by the TRANSFER entries. */
  lemma SplitNetsToZero(splits: seq<SplitEntry>, mainId: WalletId, u: UserId, base: real, stamp: nat)
    ensures Net(SplitLog(mainId, u, Total(splits, base), splits, base, stamp)) == 0.0
  {
    var t := Tx(mainId, u, -Total(splits, base), Split, stamp);
    NetConcat([t], Transfers(splits, u, base, stamp + 1));
    TransfersAddUpToTotal(splits, u, base, stamp + 1);
    assert [t][..0] == [];
  }

  /** Percentages are all taken of the balance read at the start: with a main
      balance of 10000, entries of 60% and 30% resolve to 6000 and 3000. */
  lemma PercentageBaseIsFixed(a: WalletId, b: WalletId)
    ensures var splits := [SplitEntry(a, None, Some(60.0)), SplitEntry(b, None, Some(30.0))];
            Resolve(splits[0], 10000.0) == 6000.0 && Resolve(splits[1], 10000.0) == 3000.0
            && Total(splits, 10000.0) == 9000.0
  {
    var splits := [SplitEntry(a, None, Some(60.0)), SplitEntry(b, None, Some(30.0))];
    assert splits[..1] == [splits[0]] && splits[..1][..0] == [];
    assert Total(splits[..1], 10000.0) == 6000.0;
  }

  /** After a successful split every balance is still the net of its ledger
      entries and still non-negative: the main wallet's by the SPLIT entry of
      `-total`, each target's by its TRANSFER entries. */
  lemma SplitKeepsBalancesRecorded(ws: seq<Wallet>, l: seq<Tx>, m: nat, u: UserId,
                                   splits: seq<SplitEntry>, base: real, total: real, stamp: nat)
    requires UniqueIds(ws) && m < |ws| && ws[m].isMain && base == ws[m].balance
    requires forall j :: 0 <= j < |ws| ==> ws[j].balance >= 0.0 && ws[j].balance == LedgerSum(l, ws[j].id)
    requires Applicable(ws, m, splits)
    requires 0.0 <= total <= base
    ensures var r := Credited(ws, ws[m].id, total, splits, base);
            var l' := l + SplitLog(ws[m].id, u, total, splits, base, stamp);
            forall j :: 0 <= j < |r| ==> r[j].balance >= 0.0 && r[j].balance == LedgerSum(l', r[j].id)
  {
    var mainId := ws[m].id;
    var t := Tx(mainId, u, -total, Split, stamp);
    var tr := Transfers(splits, u, base, stamp + 1);
    var r := Credited(ws, mainId, total, splits, base);
    assert l + SplitLog(mainId, u, total, splits, base, stamp) == l + [t] + tr;
    CreditedAt(ws, mainId, total, splits, base);
    CreditToUnnamed(splits, mainId, base);
    forall j | 0 <= j < |r|
      ensures r[j].balance >= 0.0 && r[j].balance == LedgerSum(l + [t] + tr, r[j].id)
    {
      var id := ws[j].id;
      LedgerSumConcat(l + [t], tr, id);
      LedgerSumAppend(l, t, id);
      TransfersRecordCredits(splits, u, base, stamp + 1, id);
      CreditToNonNegative(splits, id, base);
    }
  }
}
