/** WalletService: every operation reads the store, checks the business rules
    and then writes. The database is the in-memory `Store`; each method runs
    as one sequential step, so its writes happen all together or, when it
    fails before writing, not at all. */
module WalletService {
  import opened WalletTypes
  import opened Text
  import opened StoreQueries
  import opened Ledger
  import opened SplitRules
  import opened StoreInvariant

  /** One main wallet and four more. */
  const MaxWallets: nat := 5

  /** The row written by updateWallet: a truthy name is trimmed and replaces
      the old one; `isMain` and `percentage` are copied when supplied. */
  function Updated(w: Wallet, data: WalletUpdate): Wallet {
    w.(name := if Present(data.name) then Trim(data.name.value) else w.name,
       isMain := if data.isMain.Some? then data.isMain.value else w.isMain,
       percentage := if data.percentage.Some? then data.percentage.value else w.percentage)
  }

  class Store {
    var wallets: seq<Wallet>
    var ledger: seq<Tx>
    /** The id the store gives the next wallet it creates. */
    var nextWalletId: WalletId
    /** Logical time: the createdAt of the next ledger entry. */
    var clock: nat

    /** See `Consistent`. */
    ghost predicate Valid()
      reads this
    {
      Consistent(wallets, ledger, nextWalletId, clock)
    }

    constructor ()
      ensures Valid() && wallets == [] && ledger == []
    {
      wallets, ledger := [], [];
      nextWalletId, clock := 0, 0;
    }

    /** wallet.update with `increment`: add `amount` (a decrement when
        negative) to the balance of the wallet with this id and return the
        updated row; the update fails when no such wallet exists. */
    method Increment(walletId: WalletId, amount: real, ghost k: nat) returns (updated: Wallet)
      requires UniqueIds(wallets) && k < |wallets| && wallets[k].id == walletId
      modifies this`wallets
      ensures updated == old(wallets)[k].(balance := old(wallets)[k].balance + amount)
      ensures wallets == old(wallets)[k := updated]
    {
      FindById(wallets, k);
      var found := FindFirst(wallets, ById(walletId)).value;
      updated := wallets[found].(balance := wallets[found].balance + amount);
      wallets := wallets[found := updated];
    }

    /** transaction.create: append one ledger entry stamped with the clock;
        the entry must reference an existing wallet. */
    method Record(walletId: WalletId, userId: UserId, amount: real, kind: TxType)
      requires Exists(wallets, ById(walletId))
      modifies this`ledger, this`clock
      ensures ledger == old(ledger) + [Tx(walletId, userId, amount, kind, old(clock))]
      ensures clock == old(clock) + 1
    {
      ledger := ledger + [Tx(walletId, userId, amount, kind, clock)];
      clock := clock + 1;
    }

    /** wallet.create: store a new empty wallet under the next fresh id. */
    method AddWallet(w: Wallet)
      requires Valid() && w.id == nextWalletId && w.balance == 0.0
      modifies this`wallets, this`nextWalletId
      ensures Valid()
      ensures wallets == old(wallets) + [w] && nextWalletId == old(nextWalletId) + 1
    {
      AddConsistent(wallets, ledger, nextWalletId, clock, w);
      wallets := wallets + [w];
      nextWalletId := nextWalletId + 1;
    }

    /** ensureMainWallet: create a zero-balance "Main Wallet" when the user has
        no main wallet; otherwise write nothing. */
    method EnsureMainWallet(userId: UserId)
      requires Valid()
      modifies this`wallets, this`nextWalletId
      ensures Valid()
      ensures wallets == WithMain(old(wallets), userId, old(nextWalletId))
      ensures nextWalletId == old(nextWalletId) + (|wallets| - |old(wallets)|)
      ensures AtMostOneMain(old(wallets), userId) ==> AtMostOneMain(wallets, userId)
    {
      if FindFirst(wallets, MainOf(userId)).None? {
        AddWallet(Wallet(nextWalletId, userId, MainWalletName, true, 0.0, None));
      }
      if AtMostOneMain(old(wallets), userId) {
        WithMainSingleMain(old(wallets), userId, old(nextWalletId));
      }
    }

    /** createWallet: fails when a main wallet is requested and one exists,
        when the user owns five wallets, or when the trimmed name is taken;
        otherwise adds one empty wallet with the trimmed name. */
    method CreateWallet(name: string, isMain: bool, percentage: Option<real>, userId: UserId)
      returns (r: Result<Wallet, Error>)
      requires Valid()
      modifies this`wallets, this`nextWalletId
      ensures Valid()
      ensures isMain && Exists(old(wallets), MainOf(userId)) ==> r == Err(MainWalletExists)
      ensures !(isMain && Exists(old(wallets), MainOf(userId))) && Count(old(wallets), OfUser(userId)) >= MaxWallets
              ==> r == Err(WalletLimitReached)
      ensures !(isMain && Exists(old(wallets), MainOf(userId))) && Count(old(wallets), OfUser(userId)) < MaxWallets
              && Exists(old(wallets), Named(userId, Trim(name)))
              ==> r == Err(DuplicateName)
      ensures !(isMain && Exists(old(wallets), MainOf(userId))) && Count(old(wallets), OfUser(userId)) < MaxWallets
              && !Exists(old(wallets), Named(userId, Trim(name)))
              ==> r.Ok?
      ensures r.Err? ==> wallets == old(wallets) && nextWalletId == old(nextWalletId)
      ensures r.Ok? ==> r.value == Wallet(old(nextWalletId), userId, Trim(name), isMain, 0.0,
                                          if Truthy(percentage) then percentage else None)
      ensures r.Ok? ==> wallets == old(wallets) + [r.value] && nextWalletId == old(nextWalletId) + 1
      ensures r.Ok? ==> Count(wallets, OfUser(userId)) <= MaxWallets
      ensures AtMostOneMain(old(wallets), userId) ==> AtMostOneMain(wallets, userId)
      ensures NamesUnique(old(wallets), userId) ==> NamesUnique(wallets, userId)
    {
      if isMain {
        var existingMain := FindFirst(wallets, MainOf(userId));
        if existingMain.Some? {
          return Err(MainWalletExists);
        }
      }
      var walletCount := Count(wallets, OfUser(userId));
      if walletCount >= MaxWallets {
        return Err(WalletLimitReached);
      }
      var trimmed := Trim(name);
      var existingWallet := FindFirst(wallets, Named(userId, trimmed));
      if existingWallet.Some? {
        return Err(DuplicateName);
      }
      var w := Wallet(nextWalletId, userId, trimmed, isMain, 0.0, if Truthy(percentage) then percentage else None);
      AddKeepsRules(wallets, w, userId);
      CountAppend(wallets, w, OfUser(userId));
      AddWallet(w);
      r := Ok(w);
    }

    /** getWallets: ensure the main wallet, then list the user's wallets,
        main wallet first, then by name. */
    method GetWallets(userId: UserId) returns (r: seq<Wallet>)
      requires Valid()
      modifies this`wallets, this`nextWalletId
      ensures Valid()
      ensures wallets == WithMain(old(wallets), userId, old(nextWalletId))
      ensures nextWalletId == old(nextWalletId) + (|wallets| - |old(wallets)|)
      ensures r == Listing(wallets, userId)
      ensures exists i :: 0 <= i < |r| && r[i].isMain
    {
      EnsureMainWallet(userId);
      r := Listing(wallets, userId);
      var k := MainIndex(wallets, userId);
      assert wallets[k] in r;
    }

    /** getWalletById: the wallet with this id, only if the user owns it. */
    method GetWalletById(walletId: WalletId, userId: UserId) returns (r: Result<Wallet, Error>)
      ensures r.Ok? <==> Exists(wallets, Owned(walletId, userId))
      ensures r.Ok? ==> r.value in wallets && r.value.id == walletId && r.value.userId == userId
      ensures r.Err? ==> r.error == WalletNotFound
    {
      var found := FindFirst(wallets, Owned(walletId, userId));
      if found.None? {
        return Err(WalletNotFound);
      }
      r := Ok(wallets[found.value]);
    }

    /** updateWallet: fails for a wallet the user does not own, for renaming a
        main wallet and for a trimmed name another of the user's wallets has;
        otherwise writes `Updated`, which never touches the balance. */
    method UpdateWallet(walletId: WalletId, userId: UserId, data: WalletUpdate) returns (r: Result<Wallet, Error>)
      requires Valid()
      modifies this`wallets
      ensures Valid()
      ensures var f := FindFirst(old(wallets), Owned(walletId, userId));
              && (f.None? ==> r == Err(WalletNotFound))
              && (f.Some? && old(wallets)[f.value].isMain && Present(data.name) ==> r == Err(CannotRenameMain))
              && (f.Some? && !old(wallets)[f.value].isMain && Present(data.name)
                  && Exists(old(wallets), NamedExcept(userId, Trim(data.name.value), walletId))
                  ==> r == Err(DuplicateName))
              && (f.Some? && !(old(wallets)[f.value].isMain && Present(data.name))
                  && !(Present(data.name) && Exists(old(wallets), NamedExcept(userId, Trim(data.name.value), walletId)))
                  ==> r.Ok?)
              && (r.Ok? ==> f.Some? && r.value == Updated(old(wallets)[f.value], data)
                            && wallets == old(wallets)[f.value := r.value])
      ensures r.Err? ==> wallets == old(wallets)
      ensures r.Ok? ==> r.value.id == walletId && r.value.userId == userId
      ensures |wallets| == |old(wallets)|
      ensures forall i :: 0 <= i < |wallets| ==> wallets[i].id == old(wallets)[i].id && wallets[i].balance == old(wallets)[i].balance
      ensures data.isMain.None? ==> forall i :: 0 <= i < |wallets| ==> wallets[i].isMain == old(wallets)[i].isMain
      ensures data.isMain.None? && AtMostOneMain(old(wallets), userId) ==> AtMostOneMain(wallets, userId)
      ensures NamesUnique(old(wallets), userId) ==> NamesUnique(wallets, userId)
    {
      var found := FindFirst(wallets, Owned(walletId, userId));
      if found.None? {
        return Err(WalletNotFound);
      }
      var k := found.value;
      var existingWallet := wallets[k];
      if existingWallet.isMain && Present(data.name) {
        return Err(CannotRenameMain);
      }
      if Present(data.name) {
        var duplicateWallet := FindFirst(wallets, NamedExcept(userId, Trim(data.name.value), walletId));
        if duplicateWallet.Some? {
          return Err(DuplicateName);
        }
      }
      var w := Updated(existingWallet, data);
      ReplaceConsistent(wallets, ledger, nextWalletId, clock, k, w);
      ReplaceKeepsRules(wallets, k, w, userId);
      wallets := wallets[k := w];
      r := Ok(w);
    }

    /** deleteWallet: fails for a wallet the user does not own, for the main
        wallet and for a positive balance; otherwise removes exactly that wallet. */
    method DeleteWallet(walletId: WalletId, userId: UserId) returns (r: Result<(), Error>)
      requires Valid()
      modifies this`wallets
      ensures Valid()
      ensures var f := FindFirst(old(wallets), Owned(walletId, userId));
              && (f.None? ==> r == Err(WalletNotFound))
              && (f.Some? && old(wallets)[f.value].isMain ==> r == Err(CannotDeleteMain))
              && (f.Some? && !old(wallets)[f.value].isMain && old(wallets)[f.value].balance > 0.0
                  ==> r == Err(RemainingBalance))
              && (f.Some? && !old(wallets)[f.value].isMain && old(wallets)[f.value].balance <= 0.0 ==> r.Ok?)
              && (r.Ok? ==> f.Some? && old(wallets)[f.value].balance == 0.0
                            && wallets == old(wallets)[..f.value] + old(wallets)[f.value + 1..])
      ensures r.Err? ==> wallets == old(wallets)
      ensures SumBalances(wallets) == SumBalances(old(wallets))
      ensures forall w :: w in wallets ==> w in old(wallets)
    {
      var found := FindFirst(wallets, Owned(walletId, userId));
      if found.None? {
        return Err(WalletNotFound);
      }
      var k := found.value;
      var wallet := wallets[k];
      if wallet.isMain {
        return Err(CannotDeleteMain);
      }
      if wallet.balance > 0.0 {
        return Err(RemainingBalance);
      }
      SumBalancesRemove(wallets, k);
      RemoveConsistent(wallets, ledger, nextWalletId, clock, k);
      RemoveKeepsOthers(wallets, k);
      wallets := wallets[..k] + wallets[k + 1..];
      r := Ok(());
    }

    /** depositToMainWallet: ensure the main wallet first (a rejected deposit
        may still create it), reject a non-positive amount, then credit the main
        wallet and record one DEPOSIT entry. */
    method DepositToMainWallet(userId: UserId, amount: real) returns (r: Result<Wallet, Error>)
      requires Valid()
      modifies this
      ensures Valid()
      ensures nextWalletId == old(nextWalletId) + (|wallets| - |old(wallets)|)
      ensures var ws0 := WithMain(old(wallets), userId, old(nextWalletId));
              var k := MainIndex(ws0, userId);
              && (amount <= 0.0 ==> r == Err(NonPositiveDeposit) && wallets == ws0
                                    && ledger == old(ledger) && clock == old(clock))
              && (amount > 0.0 ==> r == Ok(ws0[k].(balance := ws0[k].balance + amount))
                                   && wallets == ws0[k := r.value]
                                   && ledger == old(ledger) + [Tx(ws0[k].id, userId, amount, Deposit, old(clock))]
                                   && clock == old(clock) + 1)
    {
      EnsureMainWallet(userId);
      var k := MainIndex(wallets, userId);
      if amount <= 0.0 {
        return Err(NonPositiveDeposit);
      }
      var updatedWallet := DepositWrites(k, userId, amount);
      r := Ok(updatedWallet);
    }

    /** The two writes of depositToMainWallet: increment the main wallet (at
        position `k`) and record a DEPOSIT entry. */
    method DepositWrites(k: nat, userId: UserId, amount: real) returns (updated: Wallet)
      requires Valid() && k < |wallets| && amount > 0.0
      modifies this`wallets, this`ledger, this`clock
      ensures Valid()
      ensures updated == old(wallets)[k].(balance := old(wallets)[k].balance + amount)
      ensures wallets == old(wallets)[k := updated]
      ensures ledger == old(ledger) + [Tx(old(wallets)[k].id, userId, amount, Deposit, old(clock))]
      ensures clock == old(clock) + 1
    {
      var mainWallet := wallets[k];
      ghost var ws0, l0, c0 := wallets, ledger, clock;
      updated := Increment(mainWallet.id, amount, k);
      assert Matches(wallets[k], ById(mainWallet.id));
      Record(mainWallet.id, userId, amount, Deposit);
      assert wallets == ws0[k := ws0[k].(balance := ws0[k].balance + amount)];
      assert ledger == l0 + [Tx(ws0[k].id, userId, amount, Deposit, c0)];
      DepositConsistent(ws0, l0, nextWalletId, c0, k, userId, amount);
    }

    /** The validation loop of splitFunds: for each entry in order, check the
        target and the amount or percentage, and add the resolved amount to
        the total; the first failure ends the loop. */
    method ValidateSplits(userId: UserId, mainBalance: real, splits: seq<SplitEntry>) returns (r: Result<real, Error>)
      ensures r == Validated(wallets, userId, splits, mainBalance, |splits|)
    {
      var totalAmount := 0.0;
      var i := 0;
      while i < |splits|
        invariant 0 <= i <= |splits|
        invariant Validated(wallets, userId, splits, mainBalance, i) == Ok(totalAmount)
      {
        var checked := CheckEntry(wallets, userId, splits[i], mainBalance);
        if checked.Err? {
          ValidatedErrSticks(wallets, userId, splits, mainBalance, i + 1, |splits|, checked.error);
          return Err(checked.error);
        }
        totalAmount := totalAmount + checked.value;
        i := i + 1;
      }
      r := Ok(totalAmount);
    }

    /** splitFunds: ensure the main wallet, read its balance once, validate
        every entry against that balance, reject a total above it, then debit
        the main wallet once, credit each target and record one SPLIT entry
        and one TRANSFER entry per target. */
    method SplitFunds(userId: UserId, splits: seq<SplitEntry>) returns (r: Result<real, Error>)
      requires Valid()
      modifies this
      ensures Valid()
      ensures clock == old(clock) + if r.Ok? then 1 + |splits| else 0
      ensures nextWalletId == old(nextWalletId) + (|wallets| - |old(wallets)|)
      ensures var ws0 := WithMain(old(wallets), userId, old(nextWalletId));
              var m := MainIndex(ws0, userId);
              var base := ws0[m].balance;
              var v := Validated(ws0, userId, splits, base, |splits|);
              && (v.Err? ==> r == Err(v.error) && wallets == ws0 && ledger == old(ledger))
              && (v.Ok? && v.value > base ==> r == Err(InsufficientFunds) && wallets == ws0 && ledger == old(ledger))
              && (v.Ok? && v.value <= base ==>
                    r == Ok(Total(splits, base))
                    && wallets == Credited(ws0, ws0[m].id, Total(splits, base), splits, base)
                    && ledger == old(ledger) + SplitLog(ws0[m].id, userId, Total(splits, base), splits, base, old(clock)))
    {
      EnsureMainWallet(userId);
      r := SplitFromMain(userId, splits);
    }

    /** splitFunds once the user's main wallet exists. */
    method SplitFromMain(userId: UserId, splits: seq<SplitEntry>) returns (r: Result<real, Error>)
      requires Valid() && Exists(wallets, MainOf(userId))
      modifies this`wallets, this`ledger, this`clock
      ensures Valid()
      ensures clock == old(clock) + if r.Ok? then 1 + |splits| else 0
      ensures var m := MainIndex(old(wallets), userId);
              var base := old(wallets)[m].balance;
              var v := Validated(old(wallets), userId, splits, base, |splits|);
              && (v.Err? ==> r == Err(v.error) && wallets == old(wallets) && ledger == old(ledger))
              && (v.Ok? && v.value > base ==> r == Err(InsufficientFunds) && wallets == old(wallets) && ledger == old(ledger))
              && (v.Ok? && v.value <= base ==>
                    r == Ok(Total(splits, base))
                    && wallets == Credited(old(wallets), old(wallets)[m].id, Total(splits, base), splits, base)
                    && ledger == old(ledger) + SplitLog(old(wallets)[m].id, userId, Total(splits, base), splits, base, old(clock)))
    {
      var m := MainIndex(wallets, userId);
      var mainWallet := wallets[m];
      var mainBalance := mainWallet.balance;

      var v := ValidateSplits(userId, mainBalance, splits);
      if v.Err? {
        return Err(v.error);
      }
      var totalAmount := v.value;
      ValidatedTotal(wallets, userId, splits, mainBalance);
      if totalAmount > mainBalance {
        return Err(InsufficientFunds);
      }

      ValidatedTargets(wallets, userId, splits, mainBalance, m);
      SplitTransaction(userId, splits, m, mainBalance, totalAmount);
      r := Ok(totalAmount);
    }

    /** The database transaction of splitFunds on a consistent store: its
        writes keep the store consistent. */
    method SplitTransaction(userId: UserId, splits: seq<SplitEntry>, m: nat, mainBalance: real, totalAmount: real)
      requires Valid() && m < |wallets| && wallets[m].isMain && wallets[m].balance == mainBalance
      requires Applicable(wallets, m, splits) && 0.0 <= totalAmount <= mainBalance
      modifies this`wallets, this`ledger, this`clock
      ensures Valid() && clock == old(clock) + 1 + |splits|
      ensures wallets == Credited(old(wallets), old(wallets)[m].id, totalAmount, splits, mainBalance)
      ensures ledger == old(ledger) + SplitLog(old(wallets)[m].id, userId, totalAmount, splits, mainBalance, old(clock))
    {
      SplitConsistent(wallets, ledger, nextWalletId, clock, m, userId, splits, mainBalance, totalAmount);
      ApplySplit(userId, splits, m, mainBalance, totalAmount);
    }

    /** The database transaction of splitFunds: debit the main wallet (at
        position `m`) by the total and record the SPLIT entry, then for each
        entry in order credit its target and record a TRANSFER entry. */
    method ApplySplit(userId: UserId, splits: seq<SplitEntry>, m: nat, mainBalance: real, totalAmount: real)
      requires UniqueIds(wallets) && m < |wallets| && wallets[m].balance == mainBalance
      requires forall k :: 0 <= k < |splits| ==> Exists(wallets, ById(splits[k].walletId))
      modifies this`wallets, this`ledger, this`clock
      ensures clock == old(clock) + 1 + |splits|
      ensures wallets == Credited(old(wallets), old(wallets)[m].id, totalAmount, splits, mainBalance)
      ensures ledger == old(ledger) + SplitLog(old(wallets)[m].id, userId, totalAmount, splits, mainBalance, old(clock))
    {
      var mainWallet := wallets[m];
      ghost var ws0, l0, c0, next0 := wallets, ledger, clock, nextWalletId;
      ghost var splitTx := Tx(mainWallet.id, userId, -totalAmount, Split, c0);
      CreditedNone(ws0, m, totalAmount, mainBalance);
      var _ := Increment(mainWallet.id, -totalAmount, m);
      assert Matches(wallets[m], ById(mainWallet.id));
      Record(mainWallet.id, userId, -totalAmount, Split);
      assert splits[..0] == [];

      var i := 0;
      while i < |splits|
        invariant 0 <= i <= |splits|
        invariant wallets == Credited(ws0, mainWallet.id, totalAmount, splits[..i], mainBalance)
        invariant ledger == l0 + [splitTx] + Transfers(splits[..i], userId, mainBalance, c0 + 1)
        invariant clock == c0 + 1 + i
      {
        TransferNext(userId, splits, i, mainWallet.id, totalAmount, mainBalance, ws0, l0 + [splitTx], c0 + 1);
        i := i + 1;
      }
      assert splits[..i] == splits;
      assert ledger == l0 + SplitLog(mainWallet.id, userId, totalAmount, splits, mainBalance, c0);
    }

    /** The transfer loop of splitFunds moves from `i` applied entries to
        `i + 1`: the wallets and the ledger after it are those of the first
        `i + 1` entries. */
    method TransferNext(userId: UserId, splits: seq<SplitEntry>, i: nat, mainId: WalletId, totalAmount: real,
                        mainBalance: real, ghost ws0: seq<Wallet>, ghost pre: seq<Tx>, ghost start: nat)
      requires UniqueIds(ws0) && i < |splits| && Exists(ws0, ById(splits[i].walletId))
      requires wallets == Credited(ws0, mainId, totalAmount, splits[..i], mainBalance)
      requires ledger == pre + Transfers(splits[..i], userId, mainBalance, start)
      requires clock == start + i
      modifies this`wallets, this`ledger, this`clock
      ensures wallets == Credited(ws0, mainId, totalAmount, splits[..i + 1], mainBalance)
      ensures ledger == pre + Transfers(splits[..i + 1], userId, mainBalance, start)
      ensures clock == start + i + 1
    {
      ghost var k := FindFirst(ws0, ById(splits[i].walletId)).value;
      CreditedStep(ws0, mainId, totalAmount, splits, i, mainBalance, k);
      TransfersStep(pre, splits, userId, mainBalance, start, i);
      CreditEntry(userId, splits[i], mainBalance, k);
    }

    /** One pass of the transfer loop of splitFunds: resolve the entry
        against the main balance read before the transaction, credit its
        target (at position `k`) and record a TRANSFER entry. */
    method CreditEntry(userId: UserId, split: SplitEntry, mainBalance: real, ghost k: nat)
      requires UniqueIds(wallets) && k < |wallets| && wallets[k].id == split.walletId
      modifies this`wallets, this`ledger, this`clock
      ensures wallets == old(wallets)[k := old(wallets)[k].(balance := old(wallets)[k].balance + Resolve(split, mainBalance))]
      ensures ledger == old(ledger) + [Tx(split.walletId, userId, Resolve(split, mainBalance), Transfer, old(clock))]
      ensures clock == old(clock) + 1
    {
      var amountToAdd := 0.0;
      if Truthy(split.amount) {
        amountToAdd := split.amount.value;
      } else if Truthy(split.percentage) {
        amountToAdd := (mainBalance * split.percentage.value) / 100.0;
      }
      assert amountToAdd == Resolve(split, mainBalance);
      var _ := Increment(split.walletId, amountToAdd, k);
      assert Matches(wallets[k], ById(split.walletId));
      Record(split.walletId, userId, amountToAdd, Transfer);
    }

    /** getWalletTransactions: the ownership check of getWalletById, then at
        most 50 entries of the wallet, newest first. */
    method GetWalletTransactions(walletId: WalletId, userId: UserId) returns (r: Result<seq<Tx>, Error>)
      requires Valid()
      ensures r.Err? <==> !Exists(wallets, Owned(walletId, userId))
      ensures r.Err? ==> r.error == WalletNotFound
      ensures r.Ok? ==> r.value == Recent(ledger, walletId, HistoryLimit)
      ensures r.Ok? ==> |r.value| <= HistoryLimit && Descending(r.value)
      ensures r.Ok? ==> forall t, x ::
                          t in ledger && t.walletId == walletId && t !in r.value && x in r.value ==> t.createdAt < x.createdAt
    {
      var wallet := GetWalletById(walletId, userId);
      if wallet.Err? {
        return Err(wallet.error);
      }
      RecentIsNewest(ledger, walletId, HistoryLimit);
      r := Ok(Recent(ledger, walletId, HistoryLimit));
    }
  }
}
