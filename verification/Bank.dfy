/**
 The bank account component and the two note scripts that drive it, over field
 elements. A failed assertion aborts the transaction, which then leaves no trace.
 */
module Bank {
  import opened Wrappers

  /** The order of the field, 2^64 - 2^32 + 1. */
  const P: nat := 0xFFFF_FFFF_0000_0001

  const U64_MAX: nat := 0xFFFF_FFFF_FFFF_FFFF

  const MAX_DEPOSIT_AMOUNT: nat := 1_000_000

  /** 2^63 - 2^31. */
  const MAX_BALANCE: nat := 9_223_372_034_707_292_160

  type Felt = x: nat | x < P

  /** Subtraction in the field: it wraps. */
  function Sub(a: Felt, b: Felt): Felt {
    (a + (P - b)) % P
  }

  function CheckedAdd(a: nat, b: nat): Option<nat> {
    if a + b <= U64_MAX then Some(a + b) else None
  }

  datatype Word = Word(w0: Felt, w1: Felt, w2: Felt, w3: Felt)

  datatype AccountId = AccountId(prefix: Felt, suffix: Felt)

  datatype Asset = Asset(id: Word, value: Word)

  datatype OutputNote = OutputNote(
    tag: Felt, noteType: Felt, serialNum: Word, scriptRoot: Word, storage: seq<Felt>, assets: seq<Asset>)

  /**
   What the transaction kernel decides: which asset ids are fungible, which
   assets an account may receive, and which notes may be created. All that is
   known of it is that a fungible id has two zero leading limbs.
   */
  datatype Kernel = Kernel(fungible: Word -> bool, receives: Asset -> bool, creates: (Felt, Felt) -> bool) {
    ghost predicate Valid() {
      forall id :: fungible(id) ==> id.w0 == 0 && id.w1 == 0
    }
  }

  /** The state a transaction commits: the component's storage, the vault and the notes sent. */
  datatype Account = Account(initialized: Word, balances: map<Word, Felt>, vault: map<Word, nat>, sent: seq<OutputNote>)

  function Key(depositor: AccountId, asset: Asset): Word {
    Word(depositor.prefix, depositor.suffix, asset.id.w3, asset.id.w2)
  }

  function Balance(balances: map<Word, Felt>, key: Word): Felt {
    if key in balances then balances[key] else 0
  }

  function Held(vault: map<Word, nat>, id: Word): nat {
    if id in vault then vault[id] else 0
  }

  // --- What each procedure does to the account ---

  function Initialized(s: Account): Option<Account> {
    if s.initialized.w0 == 0 then Some(s.(initialized := Word(1, 0, 0, 0))) else None
  }

  /** One asset credited to the depositor and added to the vault, or nothing at all. */
  function Deposited(kernel: Kernel, s: Account, depositor: AccountId, asset: Asset): Option<Account> {
    var amount := asset.value.w0;
    var key := Key(depositor, asset);
    var total := Balance(s.balances, key) + amount;
    if s.initialized.w0 == 1 && kernel.fungible(asset.id) && amount <= MAX_DEPOSIT_AMOUNT && total <= MAX_BALANCE
       && kernel.receives(asset) && Held(s.vault, asset.id) + amount <= MAX_BALANCE
    then Some(s.(balances := s.balances[key := total], vault := s.vault[asset.id := Held(s.vault, asset.id) + amount]))
    else None
  }

  function DepositedAll(kernel: Kernel, s: Account, depositor: AccountId, assets: seq<Asset>): Option<Account> {
    if assets == [] then Some(s)
    else match DepositedAll(kernel, s, depositor, assets[..|assets| - 1])
      case None => None
      case Some(before) => Deposited(kernel, before, depositor, assets[|assets| - 1])
  }

  /** The storage items of a withdraw request, by what they stand for. */
  datatype Request = Request(asset: Asset, serialNum: Word, tag: Felt, noteType: Felt, scriptRoot: Word)

  function ParseRequest(storage: seq<Felt>): Option<Request> {
    if |storage| != 14 then None
    else Some(Request(
      Asset(Word(0, 0, storage[2], storage[3]), Word(storage[0], 0, 0, 0)),
      Word(storage[4], storage[5], storage[6], storage[7]), storage[8], storage[9],
      Word(storage[10], storage[11], storage[12], storage[13])))
  }

  /** The note a withdrawal sends: it pays the asset to the depositor alone. */
  function Payment(depositor: AccountId, request: Request): OutputNote {
    OutputNote(request.tag, request.noteType, request.serialNum, request.scriptRoot,
               [depositor.suffix, depositor.prefix, 0, 0], [request.asset])
  }

  /** The request's asset moved from the depositor's balance and the vault to a note, or nothing at all. */
  function Withdrawn(kernel: Kernel, s: Account, depositor: AccountId, request: Request): Option<Account> {
    var amount := request.asset.value.w0;
    var key := Key(depositor, request.asset);
    if s.initialized.w0 == 1 && kernel.fungible(request.asset.id) && amount <= Balance(s.balances, key)
       && kernel.creates(request.tag, request.noteType) && amount <= Held(s.vault, request.asset.id)
    then Some(s.(balances := s.balances[key := Balance(s.balances, key) - amount],
                 vault := s.vault[request.asset.id := Held(s.vault, request.asset.id) - amount],
                 sent := s.sent + [Payment(depositor, request)]))
    else None
  }

  datatype Transaction =
    | Initialize
    | DepositNote(sender: AccountId, assets: seq<Asset>)
    | WithdrawNote(sender: AccountId, storage: seq<Felt>)

  function Executed(kernel: Kernel, s: Account, tx: Transaction): Option<Account> {
    match tx
    case Initialize => Initialized(s)
    case DepositNote(sender, assets) => DepositedAll(kernel, s, sender, assets)
    case WithdrawNote(sender, storage) =>
      match ParseRequest(storage)
      case None => None
      case Some(request) => Withdrawn(kernel, s, sender, request)
  }

  /** An aborted transaction leaves the account as it was. */
  function Apply(kernel: Kernel, s: Account, tx: Transaction): Account {
    match Executed(kernel, s, tx)
    case Some(after) => after
    case None => s
  }

  function Run(kernel: Kernel, s: Account, txs: seq<Transaction>): Account {
    if txs == [] then s else Apply(kernel, Run(kernel, s, txs[..|txs| - 1]), txs[|txs| - 1])
  }

  // --- The component ---

  lemma SubIsExact(a: Felt, b: Felt)
    requires b <= a
    ensures Sub(a, b) == a - b
  {}

  /** The checked addition cannot overflow, whatever the balance: 2^32 is more than a deposit. */
  lemma DepositCannotOverflow(balance: Felt, amount: Felt)
    requires amount <= MAX_DEPOSIT_AMOUNT
    ensures CheckedAdd(balance, amount) == Some(balance + amount)
  {}

  class BankAccount {
    const kernel: Kernel
    var initialized: Word
    var balances: map<Word, Felt>
    var vault: map<Word, nat>
    var sent: seq<OutputNote>

    constructor (kernel: Kernel, vault: map<Word, nat>)
      ensures State() == Account(Word(0, 0, 0, 0), map[], vault, []) && this.kernel == kernel
    {
      this.kernel := kernel;
      this.vault := vault;
      initialized, balances, sent := Word(0, 0, 0, 0), map[], [];
    }

    function State(): Account
      reads this
    {
      Account(initialized, balances, vault, sent)
    }

    /** Each procedure answers whether its assertions held; when not, the caller aborts. */
    method Initialize() returns (ok: bool)
      modifies this
      ensures ok <==> Initialized(old(State())).Some?
      ensures ok ==> State() == Initialized(old(State())).value
    {
      if initialized.w0 != 0 { return false; }
      initialized := Word(1, 0, 0, 0);
      ok := true;
    }

    function GetDepositorBalance(depositor: AccountId, asset: Asset): Felt
      reads this
    {
      Balance(balances, Key(depositor, asset))
    }

    method Deposit(depositor: AccountId, asset: Asset) returns (ok: bool)
      modifies this
      ensures ok <==> Deposited(kernel, old(State()), depositor, asset).Some?
      ensures ok ==> State() == Deposited(kernel, old(State()), depositor, asset).value
      ensures ok ==> GetDepositorBalance(depositor, asset) == old(GetDepositorBalance(depositor, asset)) + asset.value.w0
    {
      if initialized.w0 != 1 { return false; }
      if !kernel.fungible(asset.id) { return false; }
      var amount := asset.value.w0;
      if amount > MAX_DEPOSIT_AMOUNT { return false; }
      var key := Key(depositor, asset);
      var current := Balance(balances, key);
      DepositCannotOverflow(current, amount);
      match CheckedAdd(current, amount) {
        case None => return false;
        case Some(total) =>
          if total > MAX_BALANCE { return false; }
          balances := balances[key := total];
          ok := AddAsset(asset);
      }
    }

    method Withdraw(asset: Asset, serialNum: Word, tag: Felt, noteType: Felt, sender: AccountId, storage: seq<Felt>)
        returns (ok: bool)
      modifies this
      ensures |storage| < 14 ==> !ok
      ensures |storage| >= 14 ==>
        var request := Request(asset, serialNum, tag, noteType, Word(storage[10], storage[11], storage[12], storage[13]));
        && (ok <==> Withdrawn(kernel, old(State()), sender, request).Some?)
        && (ok ==> State() == Withdrawn(kernel, old(State()), sender, request).value)
        && (ok ==> GetDepositorBalance(sender, asset) == old(GetDepositorBalance(sender, asset)) - asset.value.w0)
    {
      if initialized.w0 != 1 { return false; }
      if !kernel.fungible(asset.id) { return false; }
      var amount := asset.value.w0;
      var key := Key(sender, asset);
      var current := Balance(balances, key);
      if current < amount { return false; }
      SubIsExact(current, amount);
      balances := balances[key := Sub(current, amount)];
      if |storage| < 14 { return false; }
      var scriptRoot := Word(storage[10], storage[11], storage[12], storage[13]);
      ok := CreateP2idNote(serialNum, asset, sender, tag, noteType, scriptRoot, storage);
    }

    method CreateP2idNote(serialNum: Word, asset: Asset, recipient: AccountId, tag: Felt, noteType: Felt,
                          scriptRoot: Word, storage: seq<Felt>) returns (ok: bool)
      requires |storage| >= 4
      modifies this`vault, this`sent
      ensures ok <==> kernel.creates(tag, noteType) && asset.value.w0 <= Held(old(vault), asset.id)
      ensures ok ==> vault == old(vault)[asset.id := Held(old(vault), asset.id) - asset.value.w0]
      ensures ok ==>
        sent == old(sent) + [OutputNote(tag, noteType, serialNum, scriptRoot, [recipient.suffix, recipient.prefix, 0, 0], [asset])]
    {
      var recipientStorage := storage[..4];
      recipientStorage := recipientStorage[0 := recipient.suffix];
      recipientStorage := recipientStorage[1 := recipient.prefix];
      recipientStorage := recipientStorage[2 := 0];
      recipientStorage := recipientStorage[3 := 0];
      assert recipientStorage == [recipient.suffix, recipient.prefix, 0, 0];
      if !kernel.creates(tag, noteType) { return false; }
      var note := OutputNote(tag, noteType, serialNum, scriptRoot, recipientStorage, []);
      ok := RemoveAsset(asset);
      if ok {
        assert [] + [asset] == [asset];
        sent := sent + [note.(assets := note.assets + [asset])];
      }
    }

    /** The kernel's vault: what it holds of a fungible asset stays within the protocol's bound. */
    method AddAsset(asset: Asset) returns (ok: bool)
      modifies this`vault
      ensures ok <==> kernel.receives(asset) && Held(old(vault), asset.id) + asset.value.w0 <= MAX_BALANCE
      ensures vault == if ok then old(vault)[asset.id := Held(old(vault), asset.id) + asset.value.w0] else old(vault)
    {
      ok := kernel.receives(asset) && Held(vault, asset.id) + asset.value.w0 <= MAX_BALANCE;
      if ok { vault := vault[asset.id := Held(vault, asset.id) + asset.value.w0]; }
    }

    method RemoveAsset(asset: Asset) returns (ok: bool)
      modifies this`vault
      ensures ok <==> asset.value.w0 <= Held(old(vault), asset.id)
      ensures vault == if ok then old(vault)[asset.id := Held(old(vault), asset.id) - asset.value.w0] else old(vault)
    {
      ok := asset.value.w0 <= Held(vault, asset.id);
      if ok { vault := vault[asset.id := Held(vault, asset.id) - asset.value.w0]; }
    }

    // --- The note scripts ---

    method RunDepositNote(sender: AccountId, assets: seq<Asset>) returns (ok: bool)
      modifies this
      ensures ok <==> DepositedAll(kernel, old(State()), sender, assets).Some?
      ensures ok ==> State() == DepositedAll(kernel, old(State()), sender, assets).value
    {
      assert assets[..|assets|] == assets;
      for i := 0 to |assets|
        invariant DepositedAll(kernel, old(State()), sender, assets[..i]) == Some(State())
      {
        assert assets[..i + 1][..i] == assets[..i];
        ok := Deposit(sender, assets[i]);
        if !ok {
          AbortIsFinal(kernel, old(State()), sender, assets, i + 1);
          return;
        }
      }
      ok := true;
    }

    method RunWithdrawNote(sender: AccountId, storage: seq<Felt>) returns (ok: bool)
      modifies this
      ensures ok <==> Executed(kernel, old(State()), WithdrawNote(sender, storage)).Some?
      ensures ok ==> State() == Executed(kernel, old(State()), WithdrawNote(sender, storage)).value
    {
      if |storage| != 14 { return false; }
      var asset := Asset(Word(0, 0, storage[2], storage[3]), Word(storage[0], 0, 0, 0));
      var serialNum := Word(storage[4], storage[5], storage[6], storage[7]);
      var tag, noteType := storage[8], storage[9];
      ok := Withdraw(asset, serialNum, tag, noteType, sender, storage);
    }

    /** Runs a transaction whole or not at all. */
    method Transact(tx: Transaction)
      modifies this
      ensures State() == Apply(kernel, old(State()), tx)
    {
      var before := State();
      var ok;
      match tx {
        case Initialize => ok := Initialize();
        case DepositNote(sender, assets) => ok := RunDepositNote(sender, assets);
        case WithdrawNote(sender, storage) => ok := RunWithdrawNote(sender, storage);
      }
      if !ok {
        initialized, balances, vault, sent := before.initialized, before.balances, before.vault, before.sent;
      }
    }
  }

  /** Once one deposit of a note fails, the note fails. */
  lemma {:induction false} AbortIsFinal(kernel: Kernel, s: Account, depositor: AccountId, assets: seq<Asset>, i: nat)
    requires i <= |assets| && DepositedAll(kernel, s, depositor, assets[..i]).None?
    ensures DepositedAll(kernel, s, depositor, assets).None?
    decreases |assets| - i
  {
    if i == |assets| {
      assert assets[..i] == assets;
    } else {
      assert assets[..i + 1][..i] == assets[..i];
      AbortIsFinal(kernel, s, depositor, assets, i + 1);
    }
  }
}
