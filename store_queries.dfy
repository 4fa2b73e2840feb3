/** The store queries the wallet service issues (Prisma's findFirst, count and
    findMany over the wallet table), the per-user rules on a wallet table, and
    the effect of ensureMainWallet as a function of the table. */
module StoreQueries {
  import opened WalletTypes

  /** Some wallet in `ws` satisfies `q`. */
  predicate Exists(ws: seq<Wallet>, q: Where) {
    exists i :: 0 <= i < |ws| && Matches(ws[i], q)
  }

  /** The first position from `i` on whose wallet satisfies `q`. */
  function FindFrom(ws: seq<Wallet>, q: Where, i: nat): (r: Option<nat>)
    requires i <= |ws|
    ensures r.Some? ==> i <= r.value < |ws| && Matches(ws[r.value], q)
    ensures r.Some? ==> forall j :: i <= j < r.value ==> !Matches(ws[j], q)
    ensures r.None? ==> forall j :: i <= j < |ws| ==> !Matches(ws[j], q)
    decreases |ws| - i
  {
    if i == |ws| then None
    else if Matches(ws[i], q) then Some(i)
    else FindFrom(ws, q, i + 1)
  }

  /** findFirst: the position of the first wallet, in insertion order, that satisfies `q`. */
  function FindFirst(ws: seq<Wallet>, q: Where): (r: Option<nat>)
    ensures r.Some? ==> r.value < |ws| && Matches(ws[r.value], q)
    ensures r.Some? ==> forall j :: 0 <= j < r.value ==> !Matches(ws[j], q)
    ensures r.None? <==> !Exists(ws, q)
  {
    FindFrom(ws, q, 0)
  }

  /** count: the number of wallets that satisfy `q`. */
  function Count(ws: seq<Wallet>, q: Where): (n: nat)
    ensures n <= |ws|
    ensures n == 0 <==> !Exists(ws, q)
  {
    if ws == [] then 0
    else
      var init := ws[..|ws| - 1];
      assert forall j :: 0 <= j < |init| ==> init[j] == ws[j];
      Count(init, q) + if Matches(ws[|ws| - 1], q) then 1 else 0
  }

  /** findMany without ordering: the wallets that satisfy `q`, in insertion order. */
  function FindMany(ws: seq<Wallet>, q: Where): (r: seq<Wallet>)
    ensures forall w :: w in r <==> w in ws && Matches(w, q)
    ensures |r| == Count(ws, q)
  {
    if ws == [] then []
    else
      var init := ws[..|ws| - 1];
      assert ws == init + [ws[|ws| - 1]];
      FindMany(init, q) + if Matches(ws[|ws| - 1], q) then [ws[|ws| - 1]] else []
  }

  lemma CountAppend(ws: seq<Wallet>, w: Wallet, q: Where)
    ensures Count(ws + [w], q) == Count(ws, q) + if Matches(w, q) then 1 else 0
  {
    assert (ws + [w])[..|ws|] == ws;
  }

  /** No two wallets of the table share an id. */
  ghost predicate UniqueIds(ws: seq<Wallet>) {
    forall i, j :: 0 <= i < j < |ws| ==> ws[i].id != ws[j].id
  }

  /** With unique ids, looking a wallet up by its id finds that wallet. */
  lemma FindById(ws: seq<Wallet>, k: nat)
    requires UniqueIds(ws) && k < |ws|
    ensures FindFirst(ws, ById(ws[k].id)) == Some(k)
  {
    assert Matches(ws[k], ById(ws[k].id));
  }

  /** The user has at most one main wallet. */
  ghost predicate AtMostOneMain(ws: seq<Wallet>, u: UserId) {
    forall i, j :: 0 <= i < j < |ws| && Matches(ws[i], MainOf(u)) ==> !Matches(ws[j], MainOf(u))
  }

  /** The user's wallet names are pairwise distinct. */
  ghost predicate NamesUnique(ws: seq<Wallet>, u: UserId) {
    forall i, j :: 0 <= i < j < |ws| && ws[i].userId == u && ws[j].userId == u ==> ws[i].name != ws[j].name
  }

  /** The money held in a wallet table. */
  function SumBalances(ws: seq<Wallet>): real {
    if ws == [] then 0.0 else SumBalances(ws[..|ws| - 1]) + ws[|ws| - 1].balance
  }

  lemma {:induction false} SumBalancesConcat(a: seq<Wallet>, b: seq<Wallet>)
    ensures SumBalances(a + b) == SumBalances(a) + SumBalances(b)
  {
    if b != [] {
      var b' := b[..|b| - 1];
      var ab := a + b;
      assert ab[..|ab| - 1] == a + b';
      assert ab[|ab| - 1] == b[|b| - 1];
      assert SumBalances(ab) == SumBalances(a + b') + b[|b| - 1].balance;
      SumBalancesConcat(a, b');
    } else {
      assert a + b == a;
    }
  }

  /** Removing one wallet removes exactly its balance from the table's total. */
  lemma SumBalancesRemove(ws: seq<Wallet>, k: nat)
    requires k < |ws|
    ensures SumBalances(ws[..k] + ws[k + 1..]) == SumBalances(ws) - ws[k].balance
  {
    var a, c, b := ws[..k], ws[k..], ws[k + 1..];
    assert ws == a + c;
    assert c == [ws[k]] + b;
    assert SumBalances([ws[k]]) == ws[k].balance by {
      assert [ws[k]][..0] == [];
    }
    SumBalancesConcat(a, c);
    SumBalancesConcat([ws[k]], b);
    SumBalancesConcat(a, b);
  }

  /** Removing one wallet leaves only wallets of the table. */
  lemma RemoveKeepsOthers(ws: seq<Wallet>, k: nat)
    requires k < |ws|
    ensures forall w :: w in ws[..k] + ws[k + 1..] ==> w in ws
  {
    assert ws == ws[..k] + [ws[k]] + ws[k + 1..];
  }

  /** Replacing one wallet changes the table's total by the change of its balance. */
  lemma SumBalancesUpdate(ws: seq<Wallet>, k: nat, w: Wallet)
    requires k < |ws|
    ensures SumBalances(ws[k := w]) == SumBalances(ws) - ws[k].balance + w.balance
  {
    var ws' := ws[k := w];
    SumBalancesRemove(ws, k);
    SumBalancesRemove(ws', k);
    assert ws'[..k] + ws'[k + 1..] == ws[..k] + ws[k + 1..];
  }

  /** A deposit of `amount` into one wallet adds exactly `amount` to the table's total. */
  lemma DepositAddsToTotal(ws: seq<Wallet>, k: nat, amount: real)
    requires k < |ws|
    ensures SumBalances(ws[k := ws[k].(balance := ws[k].balance + amount)]) == SumBalances(ws) + amount
  {
    SumBalancesUpdate(ws, k, ws[k].(balance := ws[k].balance + amount));
  }

  /** The position of the user's main wallet, as findFirst reports it. */
  function MainIndex(ws: seq<Wallet>, u: UserId): (k: nat)
    requires Exists(ws, MainOf(u))
    ensures k < |ws| && ws[k].userId == u && ws[k].isMain
  {
    FindFirst(ws, MainOf(u)).value
  }

  /** The wallet table after ensureMainWallet: a zero-balance "Main Wallet"
      with the next fresh id is appended when the user has no main wallet. */
  function WithMain(ws: seq<Wallet>, u: UserId, freshId: WalletId): (r: seq<Wallet>)
    ensures Exists(r, MainOf(u))
    ensures |ws| <= |r| <= |ws| + 1 && r[..|ws|] == ws
    ensures |r| == |ws| + 1 <==> !Exists(ws, MainOf(u))
    ensures |r| == |ws| + 1 ==> r[|ws|] == Wallet(freshId, u, MainWalletName, true, 0.0, None)
  {
    if FindFirst(ws, MainOf(u)).None? then
      var r := ws + [Wallet(freshId, u, MainWalletName, true, 0.0, None)];
      assert Matches(r[|ws|], MainOf(u));
      r
    else ws
  }

  /** ensureMainWallet is idempotent: a second call creates nothing. */
  lemma WithMainIdempotent(ws: seq<Wallet>, u: UserId, id1: WalletId, id2: WalletId)
    ensures WithMain(WithMain(ws, u, id1), u, id2) == WithMain(ws, u, id1)
  {
  }

  /** ensureMainWallet never creates a second main wallet: after it the user
      has exactly one main wallet if they had at most one before. */
  lemma WithMainSingleMain(ws: seq<Wallet>, u: UserId, freshId: WalletId)
    requires AtMostOneMain(ws, u)
    ensures AtMostOneMain(WithMain(ws, u, freshId), u)
  {
    var r := WithMain(ws, u, freshId);
    if !Exists(ws, MainOf(u)) {
      assert forall i :: 0 <= i < |ws| ==> r[i] == ws[i] && !Matches(r[i], MainOf(u));
    }
  }

  // ---- getWallets ordering: isMain descending, then name ascending ----

  /** Lexicographic order on names, by character code. */
  predicate NameLe(a: string, b: string) {
    a == [] || (b != [] && (a[0] < b[0] || (a[0] == b[0] && NameLe(a[1..], b[1..]))))
  }

  lemma {:induction false} NameLeTotal(a: string, b: string)
    ensures NameLe(a, b) || NameLe(b, a)
  {
    if a != [] && b != [] && a[0] == b[0] {
      NameLeTotal(a[1..], b[1..]);
    }
  }

  lemma {:induction false} NameLeTrans(a: string, b: string, c: string)
    requires NameLe(a, b) && NameLe(b, c)
    ensures NameLe(a, c)
  {
    if a != [] && a[0] == b[0] && b[0] == c[0] {
      NameLeTrans(a[1..], b[1..], c[1..]);
    }
  }

  /** `a` may be listed before `b`: main wallets first, then by name. */
  predicate ListedBefore(a: Wallet, b: Wallet) {
    (a.isMain && !b.isMain) || (a.isMain == b.isMain && NameLe(a.name, b.name))
  }

  lemma ListedBeforeTotal(a: Wallet, b: Wallet)
    ensures ListedBefore(a, b) || ListedBefore(b, a)
  {
    NameLeTotal(a.name, b.name);
  }

  lemma ListedBeforeTrans(a: Wallet, b: Wallet, c: Wallet)
    requires ListedBefore(a, b) && ListedBefore(b, c)
    ensures ListedBefore(a, c)
  {
    if a.isMain == b.isMain && b.isMain == c.isMain {
      NameLeTrans(a.name, b.name, c.name);
    }
  }

  ghost predicate Ordered(s: seq<Wallet>) {
    forall i, j :: 0 <= i < j < |s| ==> ListedBefore(s[i], s[j])
  }

  /** Insert `x` into a listing in front of the first wallet it may precede. */
  function Insert(x: Wallet, s: seq<Wallet>): (r: seq<Wallet>)
    ensures multiset(r) == multiset(s) + multiset{x}
  {
    if s == [] then [x]
    else if ListedBefore(x, s[0]) then [x] + s
    else
      assert s == [s[0]] + s[1..];
      [s[0]] + Insert(x, s[1..])
  }

  /** Putting a wallet that may precede every wallet of an ordered listing in
      front keeps it ordered. */
  lemma ConsOrdered(x: Wallet, s: seq<Wallet>)
    requires Ordered(s)
    requires forall k :: 0 <= k < |s| ==> ListedBefore(x, s[k])
    ensures Ordered([x] + s)
  {
    var r := [x] + s;
    forall i, j | 0 <= i < j < |r| ensures ListedBefore(r[i], r[j]) {
      assert r[j] == s[j - 1];
      if i > 0 { assert r[i] == s[i - 1]; }
    }
  }

  /** A wallet listed before `x` and before every wallet of `s` is listed
      before every wallet of `Insert(x, s)`. */
  lemma InsertKeepsFirst(y: Wallet, x: Wallet, s: seq<Wallet>)
    requires ListedBefore(y, x)
    requires forall k :: 0 <= k < |s| ==> ListedBefore(y, s[k])
    ensures forall k :: 0 <= k < |Insert(x, s)| ==> ListedBefore(y, Insert(x, s)[k])
  {
    var t := Insert(x, s);
    forall k | 0 <= k < |t| ensures ListedBefore(y, t[k]) {
      assert t[k] in multiset(t);
      if t[k] != x {
        assert t[k] in multiset(s);
        var m :| 0 <= m < |s| && s[m] == t[k];
      }
    }
  }

  lemma {:induction false} InsertOrdered(x: Wallet, s: seq<Wallet>)
    requires Ordered(s)
    ensures Ordered(Insert(x, s))
  {
    if s == [] {
    } else if ListedBefore(x, s[0]) {
      forall j | 0 <= j < |s| ensures ListedBefore(x, s[j]) {
        if j > 0 { ListedBeforeTrans(x, s[0], s[j]); }
      }
      ConsOrdered(x, s);
    } else {
      var tail := s[1..];
      assert Ordered(tail) by {
        assert forall i :: 0 <= i < |tail| ==> tail[i] == s[i + 1];
      }
      InsertOrdered(x, tail);
      ListedBeforeTotal(x, s[0]);
      assert forall k :: 0 <= k < |tail| ==> ListedBefore(s[0], tail[k]) by {
        assert forall k :: 0 <= k < |tail| ==> tail[k] == s[k + 1];
      }
      InsertKeepsFirst(s[0], x, tail);
      ConsOrdered(s[0], Insert(x, tail));
    }
  }

  /** Insertion sort into the listing order. */
  function SortListing(s: seq<Wallet>): (r: seq<Wallet>)
    ensures multiset(r) == multiset(s)
  {
    if s == [] then []
    else
      assert s == [s[0]] + s[1..];
      Insert(s[0], SortListing(s[1..]))
  }

  lemma {:induction false} SortListingOrdered(s: seq<Wallet>)
    ensures Ordered(SortListing(s))
  {
    if s != [] {
      SortListingOrdered(s[1..]);
      InsertOrdered(s[0], SortListing(s[1..]));
    }
  }

  lemma SameElements(a: seq<Wallet>, b: seq<Wallet>)
    requires multiset(a) == multiset(b)
    ensures forall w :: w in a <==> w in b
  {
    forall w ensures w in a <==> w in b {
      assert w in a <==> w in multiset(a);
      assert w in b <==> w in multiset(b);
    }
  }

  /** getWallets' query: exactly the user's wallets, main wallets first, then
      by name ascending. */
  function Listing(ws: seq<Wallet>, u: UserId): (r: seq<Wallet>)
    ensures multiset(r) == multiset(FindMany(ws, OfUser(u)))
    ensures forall w :: w in r <==> w in ws && w.userId == u
    ensures Ordered(r)
    ensures forall i, j :: 0 <= i < j < |r| && r[j].isMain ==> r[i].isMain
  {
    var m := FindMany(ws, OfUser(u));
    SortListingOrdered(m);
    var r := SortListing(m);
    SameElements(r, m);
    r
  }
}
