/** `TelegramGroupSerializers.create` (api/serializers.py): add a Telegram
    group by its chat id, or bring an existing one back under a new name.
    `get_or_create` looks the group up by `group_id`; a new row gets the
    name and the column default `is_active = True`, an existing row has
    its name overwritten and is made active again. */
module GroupUpsert {
  import opened Wrappers
  import opened Entities

  /** The upsert on the group table: the new table and whether a row was
      created. */
  function Upsert(gs: seq<TelegramGroup>, name: string, groupId: int): (r: (seq<TelegramGroup>, bool))
  {
    match FirstGroup(gs, GroupIdIs(groupId))
    case Some(i) => (gs[i := gs[i].(groupName := name, isActive := true)], false)
    case None => (InsertGroup(gs, name, groupId).0, true)
  }

  /** The position of the group the call returns. */
  function UpsertedIndex(gs: seq<TelegramGroup>, groupId: int): (i: nat)
  {
    match FirstGroup(gs, GroupIdIs(groupId))
    case Some(i) => i
    case None => |gs|
  }

  /** A row is created exactly when no group has the id; the returned
      position holds the id, the given name and an active flag; the table
      grows by the created row and nothing else. */
  lemma UpsertEffect(gs: seq<TelegramGroup>, name: string, groupId: int)
    ensures var (gs', created) := Upsert(gs, name, groupId);
      var i := UpsertedIndex(gs, groupId);
      && (created <==> forall k :: 0 <= k < |gs| ==> gs[k].groupId != groupId)
      && |gs'| == |gs| + (if created then 1 else 0)
      && i < |gs'|
      && gs'[i].groupId == groupId && gs'[i].groupName == name && gs'[i].isActive
      && (created ==> i == |gs| && forall k :: 0 <= k < |gs| ==> gs[k].id < gs'[i].id)
      && (!created ==> gs'[i].id == gs[i].id)
      && forall k :: 0 <= k < |gs| && k != i ==> gs'[k] == gs[k]
  {
  }

  /** In a table whose `group_id`s are unique the call leaves exactly one
      group with the id, the one it returns, and the ids stay unique. */
  lemma UpsertExactlyOne(gs: seq<TelegramGroup>, name: string, groupId: int)
    requires GroupsValid(gs)
    ensures var gs' := Upsert(gs, name, groupId).0;
      var i := UpsertedIndex(gs, groupId);
      && GroupsValid(gs')
      && (forall k :: 0 <= k < |gs'| ==> (gs'[k].groupId == groupId <==> k == i))
      && FirstGroup(gs', GroupIdIs(groupId)) == Some(i)
      && FirstGroup(gs', ActiveGroupIdIs(groupId)) == Some(i)
  {
    UpsertEffect(gs, name, groupId);
    var gs' := Upsert(gs, name, groupId).0;
    var i := UpsertedIndex(gs, groupId);
    forall k | 0 <= k < |gs'| ensures gs'[k].groupId == groupId <==> k == i {
      if k != i && k < |gs| {
        assert gs'[k] == gs[k];
        if FirstGroup(gs, GroupIdIs(groupId)).Some? {
          assert gs[i].groupId == groupId;
        }
      }
    }
  }

  /** Repeating the call changes nothing more and creates nothing. */
  lemma UpsertIdempotent(gs: seq<TelegramGroup>, name: string, groupId: int)
    requires GroupsValid(gs)
    ensures var gs' := Upsert(gs, name, groupId).0;
      Upsert(gs', name, groupId) == (gs', false)
  {
    UpsertEffect(gs, name, groupId);
    UpsertExactlyOne(gs, name, groupId);
    var gs' := Upsert(gs, name, groupId).0;
    var i := UpsertedIndex(gs, groupId);
    assert gs'[i := gs'[i].(groupName := name, isActive := true)] == gs';
  }

  /** The store stays valid: pks only grow, so every membership still
      names a group. */
  lemma UpsertKeepsValid(db: Db, name: string, groupId: int)
    requires DbValid(db)
    ensures var gs' := Upsert(db.groups, name, groupId).0;
      GroupPks(db.groups) <= GroupPks(gs') && DbValid(db.(groups := gs'))
  {
    UpsertEffect(db.groups, name, groupId);
    UpsertExactlyOne(db.groups, name, groupId);
    var gs := db.groups;
    var gs' := Upsert(gs, name, groupId).0;
    forall p | p in GroupPks(gs) ensures p in GroupPks(gs') {
      var k :| 0 <= k < |gs| && gs[k].id == p;
      assert gs'[k].id == p;
    }
  }

  /** The serializer's `create` on the store: the upserted group's
      position and whether it was created. The `post_save` handler that
      runs on the save finds the group active and does nothing. */
  method Create(st: Store, name: string, groupId: int) returns (gi: nat, created: bool)
    modifies st
    ensures (st.groups, created) == Upsert(old(st.groups), name, groupId)
    ensures gi == UpsertedIndex(old(st.groups), groupId)
    ensures st.registers == old(st.registers) && st.hemis == old(st.hemis)
    ensures old(st.Valid()) ==> st.Valid()
  {
    if st.Valid() {
      UpsertKeepsValid(st.State(), name, groupId);
    }
    var found := FirstGroup(st.groups, GroupIdIs(groupId));
    if found.None? {
      var g := TelegramGroup(NextPk(st.groups, GroupPk), name, groupId, true);
      gi, created := |st.groups|, true;
      st.groups := st.groups + [g];
    } else {
      gi, created := found.value, false;
      var group := st.groups[gi];
      group := group.(groupName := name);
      group := group.(isActive := true);
      st.groups := st.groups[gi := group];
    }
  }
}
