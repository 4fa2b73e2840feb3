/** The records of the wallet service: wallets, ledger entries, the arguments of
    the split and update operations, and the errors the service raises. */
module WalletTypes {

  datatype Option<+T> = None | Some(value: T)

  datatype Result<+T, +E> = Ok(value: T) | Err(error: E)

  /** The user id comes from the authenticated token; wallet ids are issued by the store. */
  type UserId = string
  type WalletId = nat

  const MainWalletName: string := "Main Wallet"

  /** A wallet row. Money is an exact decimal. `percentage` is the legacy
      allocation hint stored at creation; the split engine never reads it. */
  datatype Wallet = Wallet(
    id: WalletId,
    userId: UserId,
    name: string,
    isMain: bool,
    balance: real,
    percentage: Option<real>)

  datatype TxType = Deposit | Split | Transfer

  /** A ledger row: signed amount (credit positive, debit negative) and the
      logical time at which it was written. */
  datatype Tx = Tx(walletId: WalletId, userId: UserId, amount: real, kind: TxType, createdAt: nat)

  /** One entry of a split request: `amount` and `percentage` are both optional. */
  datatype SplitEntry = SplitEntry(walletId: WalletId, amount: Option<real>, percentage: Option<real>)

  /** The partial record of updateWallet. For `percentage`, `None` is an absent
      key, `Some(None)` an explicit null and `Some(Some(p))` a number. */
  datatype WalletUpdate = WalletUpdate(
    name: Option<string>,
    isMain: Option<bool>,
    percentage: Option<Option<real>>)

  /** One kind per message the service throws. */
  datatype Error =
    | MainWalletExists           // "Main wallet already exists"
    | WalletLimitReached         // "Maximum of 5 wallets allowed per user"
    | DuplicateName              // "Wallet with this name already exists"
    | WalletNotFound             // "Wallet not found"
    | CannotRenameMain           // "Cannot rename main wallet"
    | CannotDeleteMain           // "Cannot delete main wallet"
    | RemainingBalance           // "Cannot delete wallet with remaining balance"
    | NonPositiveDeposit         // "Deposit amount must be positive"
    | TargetWalletNotFound(walletId: WalletId) // "Target wallet not found: <id>"
    | CannotSplitToMain          // "Cannot split funds to main wallet"
    | NonPositiveSplitAmount     // "Split amount must be positive"
    | PercentageOutOfRange       // "Split percentage must be between 1-100"
    | MissingAmountOrPercentage  // "Each split must have either amount or percentage"
    | InsufficientFunds          // "Insufficient funds in main wallet"

  /** JavaScript truthiness of an optional number: absent and zero are false. */
  predicate Truthy(x: Option<real>) {
    x.Some? && x.value != 0.0
  }

  /** JavaScript truthiness of an optional string: absent and "" are false. */
  predicate Present(s: Option<string>) {
    s.Some? && s.value != ""
  }

  /** A Prisma `where` filter over wallets, one constructor per filter the service uses. */
  datatype Where =
    | ById(id: WalletId)
    | OfUser(userId: UserId)
    | Owned(id: WalletId, userId: UserId)
    | MainOf(userId: UserId)
    | Named(userId: UserId, name: string)
    | NamedExcept(userId: UserId, name: string, except: WalletId)

  predicate Matches(w: Wallet, q: Where) {
    match q
    case ById(id) => w.id == id
    case OfUser(u) => w.userId == u
    case Owned(id, u) => w.id == id && w.userId == u
    case MainOf(u) => w.userId == u && w.isMain
    case Named(u, n) => w.userId == u && w.name == n
    case NamedExcept(u, n, x) => w.userId == u && w.name == n && w.id != x
  }
}
