/** When adding and removing role names succeeds, and which slot of which account changes. */
module AccountEffects {
  import opened Tables
  import opened Accounts
  import opened AccountLaws

  /** The lookups by uid and by account find the account they name. */
  lemma {:induction false} LookupFinds(t: seq<AccountRow>, j: nat)
    requires AccountKeys(t) && j < |t|
    ensures AccountByUid(t, t[j].uid) == Some(t[j])
    ensures AccountByName(t, t[j].account) == if |t[j].account| <= 20 then Some(t[j]) else None
  {
    OneRow(t, HasUid(t[j].uid), t[j]);
    OneRow(t, HasAccount(t[j].account), t[j]);
  }

  lemma {:induction false} LookupMisses(t: seq<AccountRow>, uid: nat)
    requires forall r | r in t :: r.uid != uid
    ensures AccountByUid(t, uid) == None
  {
    forall r | r in t ensures !HasUid(uid)(r) {}
  }

  /** An update by a key of one account changes that row alone. */
  lemma {:induction false} UpdatesOne(t: seq<AccountRow>, j: nat, key: AccountRow -> bool, f: AccountRow -> AccountRow)
    requires AccountKeys(t) && j < |t| && (key == HasUid(t[j].uid) || key == HasAccount(t[j].account))
    ensures Updated(t, key, f) == t[j := f(t[j])]
  {
    OneRow(t, key, t[j]);
    forall i | 0 <= i < |t| && i != j ensures !key(t[i]) {
      assert t[i] in t;
      assert i < j ==> UidOf()(t[i]) != UidOf()(t[j]);
      assert j < i ==> UidOf()(t[j]) != UidOf()(t[i]);
    }
  }

  /** Some account has the name in some slot. */
  ghost predicate Taken(t: seq<AccountRow>, name: string)
  {
    exists r :: r in t && (r.name0 == name || r.name1 == name || r.name2 == name)
  }

  lemma {:induction false} TakenExactly(t: seq<AccountRow>, name: string)
    ensures Exists(t, HasName(name)) <==> Taken(t, name)
  {
    if r :| r in t && (r.name0 == name || r.name1 == name || r.name2 == name) {
      assert HasName(name)(r);
    }
    if Exists(t, HasName(name)) {
      var r :| r in t && HasName(name)(r);
      assert r.name0 == name || r.name1 == name || r.name2 == name;
    }
  }

  function Filled(r: AccountRow, name: string): AccountRow
  {
    if r.name0 == "" then r.(name0 := name)
    else if r.name1 == "" then r.(name1 := name)
    else if r.name2 == "" then r.(name2 := name)
    else r
  }

  function Cleared(r: AccountRow, name: string): AccountRow
  {
    if r.name0 == name then r.(name0 := "")
    else if r.name1 == name then r.(name1 := "")
    else if r.name2 == name then r.(name2 := "")
    else r
  }

  /** An add succeeds exactly if nobody has the name and it is written or there is no slot to write; the
      name is then in the first empty slot of that account, and nothing else has changed. */
  lemma {:induction false} AddNameExactly(t: seq<AccountRow>, j: nat, key: AccountRow -> bool, name: string, written: bool)
    requires AccountKeys(t) && j < |t| && (key == HasUid(t[j].uid) || key == HasAccount(t[j].account))
    ensures var r, (u, ok) := t[j], AddName(t, Some(t[j]), key, name, written);
            var full := r.name0 != "" && r.name1 != "" && r.name2 != "";
            && (ok <==> !Taken(t, name) && (written || full))
            && u == if ok then t[j := Filled(r, name)] else t
  {
    TakenExactly(t, name);
    var k := SlotOf(t[j], "");
    if k < 3 {
      UpdatesOne(t, j, key, SetSlot(k, name));
    }
  }

  /** A remove succeeds exactly if the account has the name and it is written; the first slot with the
      name is then empty, and nothing else has changed. */
  lemma {:induction false} RemoveNameExactly(t: seq<AccountRow>, j: nat, key: AccountRow -> bool, name: string, written: bool)
    requires AccountKeys(t) && j < |t| && (key == HasUid(t[j].uid) || key == HasAccount(t[j].account))
    ensures var r, (u, ok) := t[j], RemoveName(t, Some(t[j]), key, name, written);
            && (ok <==> (r.name0 == name || r.name1 == name || r.name2 == name) && written)
            && u == if ok then t[j := Cleared(r, name)] else t
  {
    var k := SlotOf(t[j], name);
    if k < 3 {
      UpdatesOne(t, j, key, SetSlot(k, ""));
    }
  }

  /** Neither does anything for an unknown uid. */
  lemma {:induction false} UnknownUid(t: seq<AccountRow>, uid: nat, name: string, written: bool)
    requires forall r | r in t :: r.uid != uid
    ensures AddName(t, AccountByUid(t, uid), HasUid(uid), name, written) == (t, false)
    ensures RemoveName(t, AccountByUid(t, uid), HasUid(uid), name, written) == (t, false)
  {
    LookupMisses(t, uid);
  }

  /** After an add that found a slot, the owner query answers the account's uid, whichever row it reads. */
  lemma {:induction false} OwnerAfterAdd(t: seq<AccountRow>, j: nat, name: string, choice: Option<AccountRow>)
    requires AccountKeys(t) && j < |t| && !Taken(t, name) && SlotOf(t[j], "") < 3
    requires Selects(AddName(t, AccountByUid(t, t[j].uid), HasUid(t[j].uid), name, true).0, HasName(name), choice)
    ensures UidByName(choice) == t[j].uid
  {
    LookupFinds(t, j);
    AddNameExactly(t, j, HasUid(t[j].uid), name, true);
    var u := t[j := Filled(t[j], name)];
    assert u[j] in u && HasName(name)(u[j]);
    forall r | r in u && HasName(name)(r) ensures r == u[j] {
      var i :| 0 <= i < |u| && u[i] == r;
      assert t[i] in t;
    }
  }
}
