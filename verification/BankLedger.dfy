/** What the bank keeps over every run of transactions: solvency, bounds, and whose balances move. */
module BankLedger {
  import opened Wrappers
  import opened Bank

  // --- Sums over the balances ---

  /** The keys of one asset: those whose last limbs are its id's. */
  predicate Owes(key: Word, id: Word) {
    key.w2 == id.w3 && key.w3 == id.w2
  }

  function Part(key: Word, balance: nat, id: Word): nat {
    if Owes(key, id) then balance else 0
  }

  /** What the bank owes all depositors of an asset together. */
  ghost function Liabilities(balances: map<Word, Felt>, id: Word): nat
    decreases |balances|
  {
    if balances == map[] then 0
    else
      var key :| key in balances;
      Part(key, balances[key], id) + Liabilities(balances - {key}, id)
  }

  /** Any key can be taken out of the sum first. */
  lemma {:induction false} LiabilitiesSplit(balances: map<Word, Felt>, id: Word, key: Word)
    requires key in balances
    ensures Liabilities(balances, id) == Part(key, balances[key], id) + Liabilities(balances - {key}, id)
    decreases |balances|
  {
    var first :| first in balances && Liabilities(balances, id) == Part(first, balances[first], id) + Liabilities(balances - {first}, id);
    if first != key {
      LiabilitiesSplit(balances - {first}, id, key);
      LiabilitiesSplit(balances - {key}, id, first);
      assert balances - {first} - {key} == balances - {key} - {first};
    }
  }

  lemma LiabilitiesUpdate(balances: map<Word, Felt>, id: Word, key: Word, balance: Felt)
    ensures Liabilities(balances[key := balance], id) + Part(key, Balance(balances, key), id)
         == Liabilities(balances, id) + Part(key, balance, id)
  {
    var after := balances[key := balance];
    LiabilitiesSplit(after, id, key);
    if key in balances {
      LiabilitiesSplit(balances, id, key);
      assert after - {key} == balances - {key};
    } else {
      assert after - {key} == balances;
    }
  }

  lemma BalanceIsOwed(balances: map<Word, Felt>, id: Word, key: Word)
    requires Owes(key, id)
    ensures Balance(balances, key) <= Liabilities(balances, id)
  {}

  // --- What each transaction does ---

  /** The shape of a fungible id; it makes the key of an asset tell the asset. */
  predicate FungibleShape(id: Word) {
    id.w0 == 0 && id.w1 == 0
  }

  /** What the vault holds over what is owed. */
  ghost function Margin(s: Account, id: Word): int {
    Held(s.vault, id) - Liabilities(s.balances, id)
  }

  /** The amounts of the assets that count towards `key`'s balance. */
  function Credits(assets: seq<Asset>, key: Word): nat {
    if assets == [] then 0
    else
      var last := assets[|assets| - 1];
      Credits(assets[..|assets| - 1], key) + Part(key, last.value.w0, last.id)
  }

  predicate IsOf(key: Word, depositor: AccountId) {
    key.w0 == depositor.prefix && key.w1 == depositor.suffix
  }

  lemma DepositMovesOneBalance(kernel: Kernel, s: Account, depositor: AccountId, asset: Asset, key: Word, id: Word)
    requires kernel.Valid() && Deposited(kernel, s, depositor, asset).Some? && FungibleShape(id)
    ensures var after := Deposited(kernel, s, depositor, asset).value;
            && after.initialized == s.initialized && after.sent == s.sent
            && Balance(after.balances, key) == Balance(s.balances, key) + (if IsOf(key, depositor) then Part(key, asset.value.w0, asset.id) else 0)
            && Held(after.vault, id) == Held(s.vault, id) + (if asset.id == id then asset.value.w0 else 0)
            && Margin(after, id) == Margin(s, id)
  {
    assert kernel.fungible(asset.id);
    var ours := Key(depositor, asset);
    LiabilitiesUpdate(s.balances, id, ours, Balance(s.balances, ours) + asset.value.w0);
  }

  /**
   A committed deposit note credits each of its assets to its sender, and
   touches no other depositor's balance and no other asset's.
   */
  lemma {:induction false} DepositNoteCreditsSender(kernel: Kernel, s: Account, sender: AccountId, assets: seq<Asset>, key: Word, id: Word)
    requires kernel.Valid() && DepositedAll(kernel, s, sender, assets).Some? && FungibleShape(id)
    ensures var after := DepositedAll(kernel, s, sender, assets).value;
            && after.initialized == s.initialized && after.sent == s.sent
            && Balance(after.balances, key) == Balance(s.balances, key) + (if IsOf(key, sender) then Credits(assets, key) else 0)
            && Held(after.vault, id) == Held(s.vault, id) + Credits(assets, Word(0, 0, id.w3, id.w2))
            && Margin(after, id) == Margin(s, id)
  {
    if assets != [] {
      var front, last := assets[..|assets| - 1], assets[|assets| - 1];
      DepositNoteCreditsSender(kernel, s, sender, front, key, id);
      var before := DepositedAll(kernel, s, sender, front).value;
      DepositMovesOneBalance(kernel, before, sender, last, key, id);
      assert kernel.fungible(last.id);
    }
  }

  lemma WithdrawalKeepsMargin(kernel: Kernel, s: Account, sender: AccountId, request: Request, id: Word)
    requires kernel.Valid() && Withdrawn(kernel, s, sender, request).Some? && FungibleShape(id)
    ensures Margin(Withdrawn(kernel, s, sender, request).value, id) == Margin(s, id)
  {
    assert kernel.fungible(request.asset.id);
    var ours := Key(sender, request.asset);
    LiabilitiesUpdate(s.balances, id, ours, Balance(s.balances, ours) - request.asset.value.w0);
  }

  /**
   A committed withdrawal takes exactly the amount from the one balance and the
   one asset, and what it takes is in the note it sends.
   */
  lemma WithdrawalDebitsSender(kernel: Kernel, s: Account, sender: AccountId, request: Request, key: Word, id: Word)
    requires kernel.Valid() && Withdrawn(kernel, s, sender, request).Some? && FungibleShape(id)
    ensures var after := Withdrawn(kernel, s, sender, request).value;
            var amount := request.asset.value.w0;
            && after.initialized == s.initialized
            && Balance(after.balances, key) + (if key == Key(sender, request.asset) then amount else 0) == Balance(s.balances, key)
            && Held(after.vault, id) + (if request.asset.id == id then amount else 0) == Held(s.vault, id)
            && Margin(after, id) == Margin(s, id)
            && Paid(after.sent, id) == Paid(s.sent, id) + (if request.asset.id == id then amount else 0)
  {
    WithdrawalKeepsMargin(kernel, s, sender, request, id);
    PaidByOneMore(s.sent, Payment(sender, request), id);
  }

  // --- Exactly when each note commits, and what it then leaves ---

  /** The `i`th asset of a deposit note goes in, on top of those before it. */
  ghost predicate GoesIn(kernel: Kernel, s: Account, sender: AccountId, assets: seq<Asset>, i: nat)
    requires i < |assets|
  {
    var asset := assets[i];
    var key := Word(sender.prefix, sender.suffix, asset.id.w3, asset.id.w2);
    && kernel.fungible(asset.id) && kernel.receives(asset)
    && asset.value.w0 <= 1_000_000
    && Balance(s.balances, key) + Credits(assets[..i], key) + asset.value.w0 <= 0x8000_0000_0000_0000 - 0x8000_0000
    && Held(s.vault, asset.id) + Credits(assets[..i], key) + asset.value.w0 <= 0x8000_0000_0000_0000 - 0x8000_0000
  }

  lemma {:induction false} CreditsByLimbs(assets: seq<Asset>, a: Word, b: Word)
    requires a.w2 == b.w2 && a.w3 == b.w3
    ensures Credits(assets, a) == Credits(assets, b)
  {
    if assets != [] { CreditsByLimbs(assets[..|assets| - 1], a, b); }
  }

  /**
   A deposit note commits exactly when the bank is initialized and each of its
   assets goes in: fungible, received, at most a million, and with the ones
   before it within 2^63 - 2^31 both in the sender's balance and in the vault.
   */
  lemma {:induction false} DepositNoteExactly(kernel: Kernel, s: Account, sender: AccountId, assets: seq<Asset>)
    requires kernel.Valid()
    ensures Executed(kernel, s, DepositNote(sender, assets)).Some? <==>
            assets == [] || (s.initialized.w0 == 1 && forall i | 0 <= i < |assets| :: GoesIn(kernel, s, sender, assets, i))
  {
    if assets != [] {
      var n := |assets| - 1;
      var front, last := assets[..n], assets[n];
      DepositNoteExactly(kernel, s, sender, front);
      forall i | 0 <= i < n ensures GoesIn(kernel, s, sender, assets, i) <==> GoesIn(kernel, s, sender, front, i) {
        assert front[..i] == assets[..i];
      }
      if DepositedAll(kernel, s, sender, front).Some? {
        LastGoesIn(kernel, s, sender, assets);
      }
    }
  }

  lemma LastGoesIn(kernel: Kernel, s: Account, sender: AccountId, assets: seq<Asset>)
    requires kernel.Valid() && assets != [] && DepositedAll(kernel, s, sender, assets[..|assets| - 1]).Some?
    ensures DepositedAll(kernel, s, sender, assets).Some? <==> s.initialized.w0 == 1 && GoesIn(kernel, s, sender, assets, |assets| - 1)
  {
    var front, last := assets[..|assets| - 1], assets[|assets| - 1];
    if kernel.fungible(last.id) {
      var key := Word(sender.prefix, sender.suffix, last.id.w3, last.id.w2);
      DepositNoteCreditsSender(kernel, s, sender, front, key, last.id);
      CreditsByLimbs(front, key, Word(0, 0, last.id.w3, last.id.w2));
    } else {
      DepositsKeepFlag(kernel, s, sender, front);
    }
  }

  /** Whether a withdraw request goes through. */
  ghost predicate GoesOut(kernel: Kernel, s: Account, sender: AccountId, storage: seq<Felt>) {
    && |storage| == 14 && s.initialized.w0 == 1
    && kernel.fungible(Word(0, 0, storage[2], storage[3])) && kernel.creates(storage[8], storage[9])
    && storage[0] <= Balance(s.balances, Word(sender.prefix, sender.suffix, storage[3], storage[2]))
    && storage[0] <= Held(s.vault, Word(0, 0, storage[2], storage[3]))
  }

  /** The note a committed request sends pays the one asset it names to its sender's account id. */
  ghost predicate Pays(note: OutputNote, sender: AccountId, storage: seq<Felt>)
    requires |storage| == 14
  {
    && note.storage == [sender.suffix, sender.prefix, 0, 0]
    && note.tag == storage[8] && note.noteType == storage[9]
    && note.serialNum == Word(storage[4], storage[5], storage[6], storage[7])
    && note.scriptRoot == Word(storage[10], storage[11], storage[12], storage[13])
    && |note.assets| == 1 && note.assets[0].id == Word(0, 0, storage[2], storage[3])
    && note.assets[0].value == Word(storage[0], 0, 0, 0)
  }

  /**
   A withdraw request commits exactly when it goes through; then its amount has
   left the sender's balance and the vault, and the one note more pays it.
   */
  lemma WithdrawNoteExactly(kernel: Kernel, s: Account, sender: AccountId, storage: seq<Felt>)
    ensures var after := Executed(kernel, s, WithdrawNote(sender, storage));
      && (after.Some? <==> GoesOut(kernel, s, sender, storage))
      && (after.Some? ==>
            var key, id := Word(sender.prefix, sender.suffix, storage[3], storage[2]), Word(0, 0, storage[2], storage[3]);
            && |after.value.sent| == |s.sent| + 1 && s.sent <= after.value.sent
            && Pays(after.value.sent[|s.sent|], sender, storage)
            && after.value.initialized == s.initialized
            && Balance(after.value.balances, key) + storage[0] == Balance(s.balances, key)
            && (forall other | other != key :: Balance(after.value.balances, other) == Balance(s.balances, other))
            && Held(after.value.vault, id) + storage[0] == Held(s.vault, id)
            && (forall other | other != id :: Held(after.value.vault, other) == Held(s.vault, other)))
  {}

  /** Initializing commits exactly while the flag is zero, and sets nothing but the flag. */
  lemma InitializeExactly(kernel: Kernel, s: Account)
    ensures Executed(kernel, s, Initialize) == if s.initialized.w0 == 0 then Some(Account(Word(1, 0, 0, 0), s.balances, s.vault, s.sent)) else None
  {}

  function Paid(sent: seq<OutputNote>, id: Word): nat {
    if sent == [] then 0 else Paid(sent[..|sent| - 1], id) + PaidBy(sent[|sent| - 1].assets, id)
  }

  function PaidBy(assets: seq<Asset>, id: Word): nat {
    if assets == [] then 0
    else
      var last := assets[|assets| - 1];
      PaidBy(assets[..|assets| - 1], id) + (if last.id == id then last.value.w0 else 0)
  }

  lemma PaidByOneMore(sent: seq<OutputNote>, note: OutputNote, id: Word)
    requires |note.assets| == 1
    ensures Paid(sent + [note], id) == Paid(sent, id) + (if note.assets[0].id == id then note.assets[0].value.w0 else 0)
  {
    assert (sent + [note])[..|sent|] == sent;
    assert note.assets[..0] == [];
    assert PaidBy(note.assets, id) == PaidBy([], id) + (if note.assets[0].id == id then note.assets[0].value.w0 else 0);
  }

  // --- Runs ---

  /** What the committed deposit notes of a run brought in. */
  function Received(kernel: Kernel, s: Account, txs: seq<Transaction>, id: Word): nat {
    if txs == [] then 0
    else
      var front, last := txs[..|txs| - 1], txs[|txs| - 1];
      Received(kernel, s, front, id) +
      if last.DepositNote? && Executed(kernel, Run(kernel, s, front), last).Some?
      then Credits(last.assets, Word(0, 0, id.w3, id.w2)) else 0
  }

  lemma TransactionKeepsMargin(kernel: Kernel, s: Account, tx: Transaction, id: Word)
    requires kernel.Valid() && FungibleShape(id)
    ensures Margin(Apply(kernel, s, tx), id) == Margin(s, id)
  {
    if Executed(kernel, s, tx).Some? {
      match tx
      case Initialize =>
      case DepositNote(sender, assets) => DepositNoteCreditsSender(kernel, s, sender, assets, id, id);
      case WithdrawNote(sender, storage) => WithdrawalDebitsSender(kernel, s, sender, ParseRequest(storage).value, id, id);
    }
  }

  /**
   Solvency: over every run, aborted transactions included, what the vault holds
   of an asset over what its depositors are owed never changes.
   */
  lemma {:induction false} RunKeepsMargin(kernel: Kernel, s: Account, txs: seq<Transaction>, id: Word)
    requires kernel.Valid() && FungibleShape(id)
    ensures Margin(Run(kernel, s, txs), id) == Margin(s, id)
  {
    if txs != [] {
      RunKeepsMargin(kernel, s, txs[..|txs| - 1], id);
      TransactionKeepsMargin(kernel, Run(kernel, s, txs[..|txs| - 1]), txs[|txs| - 1], id);
    }
  }

  /** Conservation: what is held and what was paid out is what was held, paid and received. */
  lemma {:induction false} RunConserves(kernel: Kernel, s: Account, txs: seq<Transaction>, id: Word)
    requires kernel.Valid() && FungibleShape(id)
    ensures var after := Run(kernel, s, txs);
            Held(after.vault, id) + Paid(after.sent, id) == Held(s.vault, id) + Paid(s.sent, id) + Received(kernel, s, txs, id)
  {
    if txs != [] {
      var front, last := txs[..|txs| - 1], txs[|txs| - 1];
      var before := Run(kernel, s, front);
      RunConserves(kernel, s, front, id);
      if Executed(kernel, before, last).Some? {
        match last
        case Initialize =>
        case DepositNote(sender, assets) => DepositNoteCreditsSender(kernel, before, sender, assets, id, id);
        case WithdrawNote(sender, storage) => WithdrawalDebitsSender(kernel, before, sender, ParseRequest(storage).value, id, id);
      }
    }
  }

  /** What the committed deposit notes of a run credited to a key. */
  function Credited(kernel: Kernel, s: Account, txs: seq<Transaction>, key: Word): nat {
    if txs == [] then 0
    else
      var front, last := txs[..|txs| - 1], txs[|txs| - 1];
      Credited(kernel, s, front, key) +
      if last.DepositNote? && IsOf(key, last.sender) && Executed(kernel, Run(kernel, s, front), last).Some?
      then Credits(last.assets, key) else 0
  }

  /** What the committed withdrawals of a run took from it. */
  function Debited(kernel: Kernel, s: Account, txs: seq<Transaction>, key: Word): nat {
    if txs == [] then 0
    else
      var front, last := txs[..|txs| - 1], txs[|txs| - 1];
      Debited(kernel, s, front, key) +
      if last.WithdrawNote? && Executed(kernel, Run(kernel, s, front), last).Some?
         && Key(last.sender, ParseRequest(last.storage).value.asset) == key
      then ParseRequest(last.storage).value.asset.value.w0 else 0
  }

  lemma TransactionMovesBalance(kernel: Kernel, s: Account, tx: Transaction, key: Word)
    requires kernel.Valid()
    ensures Balance(Apply(kernel, s, tx).balances, key) + Debited(kernel, s, [tx], key)
         == Balance(s.balances, key) + Credited(kernel, s, [tx], key)
  {
    assert [tx][..0] == [];
    if Executed(kernel, s, tx).Some? {
      match tx
      case Initialize =>
      case DepositNote(sender, assets) => DepositNoteCreditsSender(kernel, s, sender, assets, key, Word(0, 0, 0, 0));
      case WithdrawNote(sender, storage) =>
        WithdrawalDebitsSender(kernel, s, sender, ParseRequest(storage).value, key, Word(0, 0, 0, 0));
    }
  }

  /** Each depositor's balance of an asset is what it was, plus what was credited to it, less what was withdrawn from it. */
  lemma {:induction false} RunConservesBalance(kernel: Kernel, s: Account, txs: seq<Transaction>, key: Word)
    requires kernel.Valid()
    ensures Balance(Run(kernel, s, txs).balances, key) + Debited(kernel, s, txs, key)
         == Balance(s.balances, key) + Credited(kernel, s, txs, key)
  {
    if txs != [] {
      var front, last := txs[..|txs| - 1], txs[|txs| - 1];
      var before := Run(kernel, s, front);
      RunConservesBalance(kernel, s, front, key);
      TransactionMovesBalance(kernel, before, last, key);
      assert [last][..0] == [] && Run(kernel, before, []) == before;
    }
  }

  /** An account as it is deployed: nothing owed, whatever the vault holds. */
  function Fresh(vault: map<Word, nat>): Account {
    Account(Word(0, 0, 0, 0), map[], vault, [])
  }

  ghost predicate Bounded(s: Account) {
    forall key | key in s.balances :: s.balances[key] <= MAX_BALANCE
  }

  lemma {:induction false} DepositsKeepBounds(kernel: Kernel, s: Account, sender: AccountId, assets: seq<Asset>)
    requires Bounded(s) && DepositedAll(kernel, s, sender, assets).Some?
    ensures Bounded(DepositedAll(kernel, s, sender, assets).value)
  {
    if assets != [] {
      DepositsKeepBounds(kernel, s, sender, assets[..|assets| - 1]);
    }
  }

  lemma TransactionKeepsBounds(kernel: Kernel, s: Account, tx: Transaction)
    requires Bounded(s)
    ensures Bounded(Apply(kernel, s, tx))
  {
    if tx.DepositNote? && Executed(kernel, s, tx).Some? {
      DepositsKeepBounds(kernel, s, tx.sender, tx.assets);
    } else if tx.WithdrawNote? && Executed(kernel, s, tx).Some? {
      var after := Executed(kernel, s, tx).value;
      forall key | key in after.balances ensures after.balances[key] <= MAX_BALANCE {}
    }
  }

  /** In every reachable state each balance is within the protocol's bound on an amount. */
  lemma {:induction false} RunKeepsBounds(kernel: Kernel, vault: map<Word, nat>, txs: seq<Transaction>)
    ensures Bounded(Run(kernel, Fresh(vault), txs))
  {
    if txs != [] {
      RunKeepsBounds(kernel, vault, txs[..|txs| - 1]);
      TransactionKeepsBounds(kernel, Run(kernel, Fresh(vault), txs[..|txs| - 1]), txs[|txs| - 1]);
    }
  }

  /**
   In every reachable state the vault covers every balance, so a withdrawal is
   decided by the depositor's own balance: the vault never refuses it.
   */
  lemma WithdrawalsAreCovered(kernel: Kernel, vault: map<Word, nat>, txs: seq<Transaction>, sender: AccountId, request: Request)
    requires kernel.Valid()
    ensures var s := Run(kernel, Fresh(vault), txs);
            Withdrawn(kernel, s, sender, request).Some? <==>
              (&& s.initialized.w0 == 1 && kernel.fungible(request.asset.id)
               && request.asset.value.w0 <= Balance(s.balances, Key(sender, request.asset))
               && kernel.creates(request.tag, request.noteType))
  {
    var s := Run(kernel, Fresh(vault), txs);
    var id := request.asset.id;
    if kernel.fungible(id) {
      RunKeepsMargin(kernel, Fresh(vault), txs, id);
      assert Liabilities(Fresh(vault).balances, id) == 0;
      BalanceIsOwed(s.balances, id, Key(sender, request.asset));
    }
  }

  /** A note that fails part way, at any of its assets, changes nothing at all. */
  lemma DepositNoteIsAllOrNothing(kernel: Kernel, s: Account, sender: AccountId, assets: seq<Asset>, i: nat)
    requires i <= |assets| && DepositedAll(kernel, s, sender, assets[..i]).None?
    ensures Apply(kernel, s, DepositNote(sender, assets)) == s
  {
    AbortIsFinal(kernel, s, sender, assets, i);
  }

  lemma {:induction false} DepositsAreClosed(kernel: Kernel, s: Account, sender: AccountId, assets: seq<Asset>)
    requires s.initialized.w0 != 1
    ensures DepositedAll(kernel, s, sender, assets) == if assets == [] then Some(s) else None
  {
    if assets != [] { DepositsAreClosed(kernel, s, sender, assets[..|assets| - 1]); }
  }

  /** Until it is initialized the bank takes in and pays out nothing. */
  lemma {:induction false} NothingMovesBeforeInitialize(kernel: Kernel, vault: map<Word, nat>, txs: seq<Transaction>)
    requires Initialize !in txs
    ensures Run(kernel, Fresh(vault), txs) == Fresh(vault)
  {
    if txs != [] {
      var last := txs[|txs| - 1];
      NothingMovesBeforeInitialize(kernel, vault, txs[..|txs| - 1]);
      if last.DepositNote? { DepositsAreClosed(kernel, Fresh(vault), last.sender, last.assets); }
    }
  }

  lemma {:induction false} DepositsKeepFlag(kernel: Kernel, s: Account, sender: AccountId, assets: seq<Asset>)
    requires DepositedAll(kernel, s, sender, assets).Some?
    ensures DepositedAll(kernel, s, sender, assets).value.initialized == s.initialized
  {
    if assets != [] { DepositsKeepFlag(kernel, s, sender, assets[..|assets| - 1]); }
  }

  /** Initializing happens once. */
  lemma {:induction false} StaysInitialized(kernel: Kernel, s: Account, txs: seq<Transaction>)
    requires s.initialized.w0 == 1
    ensures Run(kernel, s, txs).initialized == s.initialized
    ensures Executed(kernel, Run(kernel, s, txs), Initialize).None?
  {
    if txs != [] {
      var before, last := Run(kernel, s, txs[..|txs| - 1]), txs[|txs| - 1];
      StaysInitialized(kernel, s, txs[..|txs| - 1]);
      if last.DepositNote? && Executed(kernel, before, last).Some? {
        DepositsKeepFlag(kernel, before, last.sender, last.assets);
      }
    }
  }
}
