/** Account slots: allocation and delete in AccountDlg.cpp, switching in mainDlg.cpp, storage in settings.cpp. */
module Accounts {
  import opened Unicode

  /** A stored section; `other` stands for the fields that are copied as they are. */
  datatype Stored = Stored(domain: string, username: string, password: string, other: string)

  datatype Account = Account(domain: string, username: string, password: string, other: string, rememberPassword: bool)

  /** A section that is not there reads as this one. */
  const NOTHING := Stored("", "", "", "")

  /** What `AccountLoad` makes of a section. */
  function Load(s: Stored): (a: Account) { Account(s.domain, s.username, s.password, s.other, s.password != "") }

  /** What `AccountSave` writes: no name and no password unless the password is to be remembered. */
  function Store(a: Account): (s: Stored) {
    if a.rememberPassword then Stored(a.domain, a.username, a.password, a.other) else Stored(a.domain, "", "", a.other)
  }

  /** A section loaded from one slot and saved into another. */
  function Moved(s: Stored): (r: Stored) { Store(Load(s)) }

  /** Moving keeps a section exactly if it has a password, or no name to lose. */
  lemma MovedIntact(s: Stored)
    ensures Moved(s) == s <==> s.password != "" || s.username == ""
  {
  }

  // ---------------------------------------------------------------- what the dialogs do to the list of accounts

  /** Sections Account1..AccountN, the active id (0 for none) and the account in use. */
  datatype State = State(list: seq<Stored>, active: nat, account: Account)

  function MovedAll(l: seq<Stored>): (r: seq<Stored>) { seq(|l|, i requires 0 <= i < |l| => Moved(l[i])) }

  /** The delete link in the dialog of account k. */
  function Deleted(s: State, k: nat): (r: State)
    requires 1 <= k <= |s.list|
  {
    var list := s.list[..k - 1] + MovedAll(s.list[k..]);
    if s.active == k then
      if list == [] then State(list, 0, s.account) else State(list, 1, Load(list[0]))
    else State(list, if s.active > k then s.active - 1 else s.active, s.account)
  }

  /** The OK button of the dialog; id 0 asks for a new slot. */
  function Confirmed(s: State, id: nat, a: Account): (r: State)
    requires id <= |s.list|
  {
    var list := if id == 0 then s.list + [Store(a)] else s.list[id - 1 := Store(a)];
    var slot := if id == 0 then |list| else id;
    State(list, slot, Load(list[slot - 1]))
  }

  /** The account menu: choosing the active account switches it off. */
  function Switched(s: State, id: nat): (r: State)
    requires 1 <= id <= |s.list|
  {
    if id == s.active then s.(active := 0) else State(s.list, id, Load(s.list[id - 1]))
  }

  /** Starting the program again: the id is read back, and account 1 stands in for none if the local account is off. */
  function Restarted(s: State, disableLocalAccount: bool, idle: Account): (r: State)
    requires s.active <= |s.list|
  {
    var id := if s.active == 0 && disableLocalAccount && s.list != [] then 1 else s.active;
    State(s.list, id, if id > 0 then Load(s.list[id - 1]) else idle)
  }

  // ---------------------------------------------------------------- the ini file

  type Sections = map<nat, Stored>

  predicate HasDomain(s: Stored) { s.domain != "" }

  /** The sections are exactly Account1..AccountN, each with a domain. */
  ghost predicate Numbered(m: Sections) {
    (forall i: nat :: i in m <==> 1 <= i <= |m|) && (forall i: nat :: i in m ==> HasDomain(m[i]))
  }

  ghost function ListOf(m: Sections): (l: seq<Stored>)
    requires Numbered(m)
  {
    seq(|m|, i requires 0 <= i < |m| => m[i + 1])
  }

  /** Sections k..i-1 overwritten with their successors. */
  ghost function Shifted(m: Sections, k: nat, i: nat): (r: Sections)
    requires Numbered(m) && 1 <= k <= i <= |m|
  {
    map j: nat | j in m :: if k <= j < i then Moved(m[j + 1]) else m[j]
  }

  lemma ShiftedStep(m: Sections, k: nat, i: nat)
    requires Numbered(m) && 1 <= k <= i <= |m|
    ensures var t := Shifted(m, k, i);
      && (i + 1 in t && HasDomain(t[i + 1]) <==> i < |m|)
      && (i < |m| ==> t[i + 1] == m[i + 1] && t[i := Moved(m[i + 1])] == Shifted(m, k, i + 1))
  {
    hide Moved, HasDomain;
  }

  lemma ShiftedDone(m: Sections, k: nat)
    requires Numbered(m) && 1 <= k <= |m|
    ensures var t := Shifted(m, k, |m|) - {|m|};
      Numbered(t) && |t| == |m| - 1 && ListOf(t) == ListOf(m)[..k - 1] + MovedAll(ListOf(m)[k..])
  {
    hide Moved, HasDomain;
    var t := Shifted(m, k, |m|) - {|m|};
    CountKeys(t, |m| - 1);
    forall j: nat | j in t ensures HasDomain(t[j]) {
      if k <= j { MovedDomain(m[j + 1]); }
    }
  }

  lemma MovedDomain(s: Stored)
    ensures HasDomain(Moved(s)) == HasDomain(s)
  {
  }

  lemma StoredAt(m: Sections, id: nat, s: Stored)
    requires Numbered(m) && 1 <= id <= |m| + 1 && HasDomain(s)
    ensures var t := m[id := s];
      && Numbered(t) && |t| == (if id > |m| then id else |m|)
      && ListOf(t) == if id > |m| then ListOf(m) + [s] else ListOf(m)[id - 1 := s]
  {
    hide HasDomain;
    CountKeys(m[id := s], if id > |m| then id else |m|);
  }

  // ---------------------------------------------------------------- the imperative form

  class AccountSettings {
    var sections: Sections
    var accountId: nat
    var account: Account
    /** The id in the Settings section, if there is one yet. */
    var savedId: Option<nat>
    /** The account that an old version kept in the Settings section. */
    var legacy: Stored

    /** The active id names one of the sections or is 0, and the file agrees on it. */
    ghost predicate Valid()
      reads this
    {
      Numbered(sections) && accountId <= |sections| && savedId == Some(accountId)
    }

    ghost function Now(): (s: State)
      requires Numbered(sections)
      reads this
    {
      State(ListOf(sections), accountId, account)
    }

    constructor (sections: Sections, savedId: Option<nat>, legacy: Stored)
      ensures this.sections == sections && this.savedId == savedId && this.legacy == legacy && accountId == 0
    {
      this.sections, this.savedId, this.legacy, accountId, account := sections, savedId, legacy, 0, Load(NOTHING);
    }

    /** `AccountLoad` fails for a section that is missing or has no domain. */
    method AccountLoad(id: nat) returns (ok: bool, a: Account)
      ensures ok <==> id in sections && HasDomain(sections[id])
      ensures a == Load(if id in sections then sections[id] else NOTHING)
    {
      ok := id in sections && sections[id].domain != "";
      a := Load(if id in sections then sections[id] else NOTHING);
    }

    /** `AccountLoad` with the id -1: the account of an old version becomes account 1. */
    method AccountMigrate() returns (ok: bool, a: Account)
      modifies this`sections, this`legacy
      ensures ok <==> HasDomain(old(legacy))
      ensures a == Load(old(legacy)) && legacy == NOTHING
      ensures sections == if ok then old(sections)[1 := Moved(old(legacy))] else old(sections)
    {
      a := Load(legacy);
      ok := legacy.domain != "";
      legacy := NOTHING;
      if ok { sections := sections[1 := Store(a)]; }
    }

    /** The start of the program: the end of `Init`, and the save with which the library is started. */
    method Start(disableLocalAccount: bool)
      requires accountId == 0
      modifies this
      ensures savedId == Some(accountId) && (old(Numbered(sections)) ==> Valid())
      ensures old(savedId).None? ==> legacy == NOTHING && account == Load(old(legacy))
      ensures old(savedId).None? && HasDomain(old(legacy)) ==>
        accountId == 1 && sections == old(sections)[1 := Moved(old(legacy))]
      ensures old(savedId).None? && !HasDomain(old(legacy)) ==> accountId == 0 && sections == old(sections)
      ensures old(savedId).Some? ==> sections == old(sections) && legacy == old(legacy)
      ensures old(savedId).Some? && old(Numbered(sections)) && old(savedId).value <= |old(sections)| ==>
        Now() == Restarted(State(ListOf(old(sections)), old(savedId).value, account), disableLocalAccount, account)
      ensures old(savedId).Some? ==>
        var id := if old(savedId) == Some(0) && disableLocalAccount then 1 else old(savedId).value;
        && accountId == (if id > 0 && id in sections && HasDomain(sections[id]) then id else 0)
        && (accountId > 0 ==> account == Load(sections[accountId]))
    {
      if savedId.None? {
        var ok, a := AccountMigrate();
        account := a;
        if ok {
          if old(Numbered(sections)) {
            MovedDomain(old(legacy));
            StoredAt(old(sections), 1, Moved(old(legacy)));
          }
          accountId := 1;
        }
      } else {
        accountId := savedId.value;
        if accountId == 0 && disableLocalAccount { accountId := 1; }
        if accountId > 0 {
          var ok, a := AccountLoad(accountId);
          account := a;
          if !ok { accountId := 0; }
        }
      }
      savedId := Some(accountId);
    }

    /** The shifting loop of the delete link. */
    method ShiftDown(k: nat) returns (last: nat, dialogId: nat)
      requires Valid() && 1 <= k <= |sections|
      modifies this`sections, this`accountId, this`savedId
      ensures last == |old(sections)| && sections == Shifted(old(sections), k, last)
      ensures accountId == (if old(accountId) > k then old(accountId) - 1 else old(accountId))
      ensures savedId == Some(accountId)
      ensures dialogId == if old(accountId) > k then 0 else k
    {
      hide Numbered, Shifted, HasDomain, Load, Store;
      ghost var was := sections;
      dialogId := k;
      var i := k;
      ShiftedNone(was, k);
      while true
        invariant k <= i <= |was| && sections == Shifted(was, k, i)
        invariant accountId == (if k < old(accountId) <= i then old(accountId) - 1 else old(accountId))
        invariant savedId == Some(accountId)
        invariant dialogId == if k < old(accountId) <= i then 0 else k
        decreases |was| - i
      {
        ShiftedStep(was, k, i);
        var ok, a := AccountLoad(i + 1);
        if !ok { break; }
        sections := sections[i := Store(a)];
        if accountId == i + 1 {
          accountId := i;
          savedId := Some(accountId);
          dialogId := 0;
        }
        i := i + 1;
      }
      last := i;
    }

    /** `OnNMClickSyslinkDelete`, confirmed */
    method Delete(k: nat)
      requires Valid() && 1 <= k <= |sections|
      modifies this
      ensures Valid() && Now() == Deleted(old(Now()), k)
    {
      hide Shifted, HasDomain, Moved, MovedAll;
      ghost var was := sections;
      var i, dialogId := ShiftDown(k);
      ShiftedDone(was, k);
      sections := sections - {i};
      if dialogId != 0 && dialogId == accountId {
        accountId := 0;
        if i > 1 {
          accountId := 1;
          var ok, a := AccountLoad(accountId);
          account := a;
        } else {
          accountId := 0;
        }
        savedId := Some(accountId);
      }
    }

    /** The slot search of `OnBnClickedOk` */
    method FreeSlot() returns (id: nat)
      requires Valid()
      ensures id == |sections| + 1
    {
      id := 1;
      while true
        invariant 1 <= id <= |sections| + 1
        decreases |sections| + 1 - id
      {
        var ok, a := AccountLoad(id);
        if !ok { break; }
        id := id + 1;
      }
    }

    /** `OnBnClickedOk` after its checks */
    method Confirm(dialogId: nat, a: Account)
      requires Valid() && dialogId <= |sections| && a.domain != ""
      modifies this
      ensures Valid() && Now() == Confirmed(old(Now()), dialogId, a)
    {
      var id := dialogId;
      if id == 0 { id := FreeSlot(); }
      StoredAt(sections, id, Store(a));
      sections := sections[id := Store(a)];
      accountId := id;
      var ok, loaded := AccountLoad(accountId);
      account := loaded;
      savedId := Some(accountId);
    }

    /** `OnMenuAccountChange` */
    method Switch(idNew: nat)
      requires Valid() && 1 <= idNew <= |sections|
      modifies this
      ensures Valid() && Now() == Switched(old(Now()), idNew)
    {
      var idOld := accountId;
      if idOld != 0 { accountId := 0; }
      if idOld != idNew {
        accountId := idNew;
        var ok, a := AccountLoad(accountId);
        account := a;
      }
      savedId := Some(accountId);
    }
  }

  lemma ShiftedNone(m: Sections, k: nat)
    requires Numbered(m) && 1 <= k <= |m|
    ensures Shifted(m, k, k) == m
  {
  }

  lemma {:induction false} CountKeys(m: Sections, n: nat)
    requires forall i: nat :: i in m <==> 1 <= i <= n
    ensures |m| == n
  {
    if n == 0 {
      assert m.Keys == {};
    } else {
      CountKeys(m - {n}, n - 1);
      assert m.Keys == (m - {n}).Keys + {n};
    }
  }

  // ---------------------------------------------------------------- over every run

  datatype Op =
    | OpDelete(k: nat)
    | OpConfirm(id: nat, a: Account)
    | OpSwitch(id: nat)
    | OpRestart(disableLocalAccount: bool, idle: Account)

  /** What the dialogs and menus let through. */
  predicate Offered(s: State, op: Op) {
    match op
    case OpDelete(k) => 1 <= k <= |s.list|
    case OpConfirm(id, a) => id <= |s.list| && a.domain != "" && a.username != "" && a.rememberPassword
    case OpSwitch(id) => 1 <= id <= |s.list|
    case OpRestart(_, _) => s.active <= |s.list|
  }

  function Apply(s: State, op: Op): (r: State)
    requires Offered(s, op)
  {
    match op
    case OpDelete(k) => Deleted(s, k)
    case OpConfirm(id, a) => Confirmed(s, id, a)
    case OpSwitch(id) => Switched(s, id)
    case OpRestart(disabled, idle) => Restarted(s, disabled, idle)
  }

  predicate AllOffered(s: State, ops: seq<Op>)
    decreases |ops|
  {
    ops == [] || (Offered(s, ops[0]) && AllOffered(Apply(s, ops[0]), ops[1..]))
  }

  function Run(s: State, ops: seq<Op>): (r: State)
    requires AllOffered(s, ops)
    decreases |ops|
  {
    if ops == [] then s else Run(Apply(s, ops[0]), ops[1..])
  }

  predicate HasPassword(op: Op) { op.OpConfirm? ==> op.a.password != "" }

  /** The active id is in range, and the account in use is the stored one. */
  ghost predicate InStep(s: State) {
    && s.active <= |s.list|
    && (s.active > 0 ==> s.account == Load(s.list[s.active - 1]))
    && forall i :: 0 <= i < |s.list| ==> s.list[i].password != ""
  }

  /** With passwords, deleting k removes exactly the k-th account and nothing from the others. */
  lemma {:induction false} DeleteRemovesExactly(s: State, k: nat)
    requires 1 <= k <= |s.list|
    ensures Deleted(s, k).list == s.list[..k - 1] + s.list[k..] <==>
      forall i :: k <= i < |s.list| ==> s.list[i].password != "" || s.list[i].username == ""
  {
    hide Moved;
    var tail := s.list[k..];
    forall i | 0 <= i < |tail| ensures Moved(tail[i]) == tail[i] <==> tail[i].password != "" || tail[i].username == "" {
      MovedIntact(tail[i]);
    }
    var list, list' := Deleted(s, k).list, s.list[..k - 1] + tail;
    assert list[k - 1..] == MovedAll(tail) && list'[k - 1..] == tail;
    if list == list' {
      forall i | k <= i < |s.list| ensures s.list[i].password != "" || s.list[i].username == "" {
        assert tail[i - k] == s.list[i] && MovedAll(tail)[i - k] == tail[i - k];
      }
    }
    if forall i :: k <= i < |s.list| ==> s.list[i].password != "" || s.list[i].username == "" {
      assert MovedAll(tail) == tail;
    }
  }

  /** The active account stays active with its contents, unless it is the one deleted. */
  lemma {:induction false} DeleteKeepsActive(s: State, k: nat)
    requires 1 <= k <= |s.list| && InStep(s)
    ensures InStep(Deleted(s, k))
    ensures s.active > 0 && s.active != k ==>
      var t := Deleted(s, k); t.active > 0 && t.list[t.active - 1] == s.list[s.active - 1] && t.account == s.account
    ensures s.active == k ==> Deleted(s, k).active == if |s.list| > 1 then 1 else 0
    ensures s.active == 0 ==> Deleted(s, k).active == 0
  {
    DeleteRemovesExactly(s, k);
  }

  /** The account in use has the fields of the section it came from; it is to be remembered if it has a password. */
  lemma LoadedFields(s: Stored)
    ensures var a := Load(s);
      && a.domain == s.domain && a.username == s.username && a.password == s.password && a.other == s.other
      && (a.rememberPassword <==> s.password != "")
  {
  }

  /** Saving an account that is to be remembered and loading it again gives it back exactly if it has a password. */
  lemma StoredFields(a: Account)
    requires a.rememberPassword
    ensures Load(Store(a)) == a <==> a.password != ""
  {
  }

  /** The menu changes no section; it puts the chosen account in use, or none if the chosen one was in use. */
  lemma SwitchChooses(s: State, id: nat)
    requires 1 <= id <= |s.list|
    ensures Switched(s, id).list == s.list
    ensures id != s.active ==> Switched(s, id).active == id && Switched(s, id).account == Load(s.list[id - 1])
    ensures id == s.active ==> Switched(s, id).active == 0
  {
  }

  /** Choosing an account twice switches it on and off again. */
  lemma SwitchTwice(s: State, id: nat)
    requires 1 <= id <= |s.list| && id != s.active
    ensures Switched(Switched(s, id), id).active == 0 && Switched(Switched(s, id), id).list == s.list
  {
  }

  /** The dialog fills the chosen slot, or a new one behind all others, with its account and puts that in use. */
  lemma ConfirmFills(s: State, id: nat, a: Account)
    requires id <= |s.list|
    ensures var t, slot := Confirmed(s, id, a), if id == 0 then |s.list| + 1 else id;
      && |t.list| == (if id == 0 then |s.list| + 1 else |s.list|)
      && t.active == slot && t.list[slot - 1] == Store(a) && t.account == Load(Store(a))
      && (forall i :: 0 <= i < |s.list| && i != slot - 1 ==> t.list[i] == s.list[i])
      && (a.rememberPassword && a.password != "" ==> t.account == a)
  {
  }

  /** Without an active account, starting again puts account 1 in use exactly if the local account is off. */
  lemma RestartWithoutActive(s: State, disableLocalAccount: bool, idle: Account)
    requires s.active == 0
    ensures var t := Restarted(s, disableLocalAccount, idle);
      && t.list == s.list && t.active == (if disableLocalAccount && s.list != [] then 1 else 0)
      && (t.active == 1 ==> t.account == Load(s.list[0]))
  {
  }

  lemma {:induction false} RunSnoc(s: State, ops: seq<Op>, op: Op)
    requires AllOffered(s, ops) && Offered(Run(s, ops), op)
    ensures AllOffered(s, ops + [op]) && Run(s, ops + [op]) == Apply(Run(s, ops), op)
    decreases |ops|
  {
    hide Offered, Apply;
    var all := ops + [op];
    if ops == [] {
      assert all == [op] && all[1..] == [];
    } else {
      assert all[0] == ops[0] && all[1..] == ops[1..] + [op];
      RunSnoc(Apply(s, ops[0]), ops[1..], op);
    }
  }

  /** After any run, what is chosen or confirmed last is in use. */
  lemma {:induction false} LastChoiceIsInUse(s: State, ops: seq<Op>, op: Op)
    requires AllOffered(s, ops) && Offered(Run(s, ops), op)
    ensures AllOffered(s, ops + [op])
    ensures var before, t := Run(s, ops), Run(s, ops + [op]);
      && (op.OpSwitch? && op.id != before.active ==>
            && 1 <= op.id <= |t.list| && t.active == op.id
            && t.account == Load(t.list[op.id - 1]) && t.list == before.list)
      && (op.OpSwitch? && op.id == before.active ==> t.active == 0 && t.list == before.list)
      && (op.OpConfirm? && op.a.password != "" ==>
            1 <= t.active <= |t.list| && t.list[t.active - 1] == Store(op.a) && t.account == op.a)
  {
    RunSnoc(s, ops, op);
    hide Run, AllOffered, Deleted, Restarted;
  }

  /** From any state in step, every run with passwords stays in step. */
  lemma {:induction false} RunStaysInStep(s: State, ops: seq<Op>)
    requires InStep(s) && AllOffered(s, ops) && forall i :: 0 <= i < |ops| ==> HasPassword(ops[i])
    ensures InStep(Run(s, ops))
    decreases |ops|
  {
    hide Deleted;
    if ops != [] {
      if ops[0].OpDelete? { DeleteKeepsActive(s, ops[0].k); }
      RunStaysInStep(Apply(s, ops[0]), ops[1..]);
    }
  }

  /** Starting again changes nothing while an account is active. */
  lemma RestartKeepsActive(s: State, disableLocalAccount: bool, idle: Account)
    requires InStep(s) && s.active > 0
    ensures Restarted(s, disableLocalAccount, idle) == s
  {
  }

  /** Without one: an account with a name and no password loses the name as soon as it moves. */
  lemma NameLostWithoutPassword(first: Stored, other: string, account: Account)
    ensures var s := State([first, Stored("d", "user", "", other)], 0, account);
      Deleted(s, 1).list == [Stored("d", "", "", other)]
  {
  }
}
