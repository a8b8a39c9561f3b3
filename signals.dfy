/** The Linker (core/signals.py): the signal handlers that link a
    bot-submitted Register with the HemisTable row holding the same
    (hemis_id, pnfl), activate the register and copy its active groups
    onto the row.

    Each handler is a pure function of the store's contents (the
    specification), and a method over `Store` that performs the same
    targeted updates in place and is proved equal to it. A handler runs
    inside `transaction.atomic()` under a `try`: when one of its updates
    would break the one-to-one link between HemisTable and Register, the
    database raises, the transaction rolls back and the handler only logs,
    so the store is left as it was. */
module Signals {
  import opened Wrappers
  import opened Entities

  /** `not value` for a nullable text column. */
  predicate Blank(v: Option<string>) {
    v.None? || v.value == ""
  }

  /** `TelegramGroup.objects.filter(id__in=ids, is_active=True)`, as pks. */
  function ActiveGroupIds(gs: seq<TelegramGroup>, ids: set<nat>): (r: set<nat>)
    ensures r <= ids
    ensures forall k :: 0 <= k < |gs| && gs[k].id in ids && gs[k].isActive ==> gs[k].id in r
    ensures forall id :: id in r ==> exists k :: 0 <= k < |gs| && gs[k].id == id && gs[k].isActive
  {
    set g | g in gs && g.id in ids && g.isActive :: g.id
  }

  /** One more group adds its pk exactly when it is active and wanted. */
  lemma ActiveGroupIdsSnoc(gs: seq<TelegramGroup>, g: TelegramGroup, ids: set<nat>)
    ensures ActiveGroupIds(gs + [g], ids)
         == ActiveGroupIds(gs, ids) + (if g.id in ids && g.isActive then {g.id} else {})
  {
    var gs' := gs + [g];
    assert gs'[|gs|] == g;
    forall k | 0 <= k < |gs| ensures gs'[k] == gs[k] { }
  }

  // ---------------------------------------------------------------------
  // Targeted updates

  /** `HemisTable.objects.filter(id=...).update(register=...)` */
  function WithLink(db: Db, hi: nat, rid: nat): Db
    requires hi < |db.hemis|
  {
    db.(hemis := db.hemis[hi := db.hemis[hi].(register := Some(rid))])
  }

  /** `Register.objects.filter(id=...).update(is_active=True)` */
  function WithActivated(db: Db, ri: nat): Db
    requires ri < |db.registers|
  {
    db.(registers := db.registers[ri := db.registers[ri].(isActive := true)])
  }

  /** The group sync of `_sync_groups_for_register` and
      `_sync_groups_for_hemis` (the two are identical): every active group
      of the register is added to the row's groups. */
  function WithGroupsSynced(db: Db, ri: nat, hi: nat): (db': Db)
    requires ri < |db.registers| && hi < |db.hemis|
    ensures db'.groups == db.groups && db'.registers == db.registers && |db'.hemis| == |db.hemis|
    ensures forall k :: 0 <= k < |db.hemis| && k != hi ==> db'.hemis[k] == db.hemis[k]
    ensures db'.hemis[hi].telegramGroups >= db.hemis[hi].telegramGroups
    ensures forall id :: id in db'.hemis[hi].telegramGroups - db.hemis[hi].telegramGroups ==>
      id in db.registers[ri].registerGroups
      && exists k :: 0 <= k < |db.groups| && db.groups[k].id == id && db.groups[k].isActive
    ensures forall k :: 0 <= k < |db.groups| && db.groups[k].isActive
                        && db.groups[k].id in db.registers[ri].registerGroups
                        ==> db.groups[k].id in db'.hemis[hi].telegramGroups
    ensures db'.hemis[hi] == db.hemis[hi].(telegramGroups := db'.hemis[hi].telegramGroups)
  {
    var h := db.hemis[hi];
    var added := ActiveGroupIds(db.groups, db.registers[ri].registerGroups);
    db.(hemis := db.hemis[hi := h.(telegramGroups := h.telegramGroups + added)])
  }

  // ---------------------------------------------------------------------
  // link_register_with_hemis

  /** How a store may evolve under one of the two linkers acting for the
      register at index `ri`: groups untouched; the register may become
      active and nothing else about registers changes; an existing link
      is never changed and a new one can only name this register; a row
      only ever gains groups, and only active groups of this register. */
  predicate LinkerStep(db: Db, db': Db, ri: nat)
    requires ri < |db.registers|
  {
    var r := db.registers[ri];
    && db'.groups == db.groups
    && |db'.registers| == |db.registers| && |db'.hemis| == |db.hemis|
    && (forall k :: 0 <= k < |db.registers| && k != ri ==> db'.registers[k] == db.registers[k])
    && (db'.registers[ri] == r || db'.registers[ri] == r.(isActive := true))
    && (forall k :: 0 <= k < |db.hemis| ==>
          && db'.hemis[k] == db.hemis[k].(register := db'.hemis[k].register,
                                           telegramGroups := db'.hemis[k].telegramGroups)
          && (db'.hemis[k].register == db.hemis[k].register
              || (db.hemis[k].register.None? && db'.hemis[k].register == Some(r.id)))
          && db.hemis[k].telegramGroups <= db'.hemis[k].telegramGroups
          && db'.hemis[k].telegramGroups - db.hemis[k].telegramGroups
               <= ActiveGroupIds(db.groups, r.registerGroups))
  }

  lemma SyncIsLinkerStep(db: Db, ri: nat, hi: nat)
    requires ri < |db.registers| && hi < |db.hemis|
    ensures LinkerStep(db, WithGroupsSynced(db, ri, hi), ri)
  {
  }

  /** Whether the register's own linked row can be found. */
  predicate IsLinked(hs: seq<HemisRecord>, rid: nat) {
    FirstHemis(hs, LinkedTo(rid)).Some?
  }

  /** `link_register_with_hemis` for the Register at index `ri`, just saved. */
  function LinkFromRegister(db: Db, ri: nat, raw: bool): (db': Db)
    requires ri < |db.registers|
  {
    var r := db.registers[ri];
    if raw || Blank(r.hemisId) || Blank(r.pnfl) then db
    else
      var hid, p := r.hemisId.value, r.pnfl.value;
      match FirstHemis(db.hemis, UnlinkedKeyIs(hid, p))
      case Some(hi) =>
        if IsLinked(db.hemis, r.id) then db   // one-to-one violation: rolled back
        else WithGroupsSynced(WithActivated(WithLink(db, hi, r.id), ri), ri, hi)
      case None =>
        match FirstHemis(db.hemis, KeyIs(hid, p))
        case None => db
        case Some(hi) =>
          if db.hemis[hi].register == Some(r.id) then WithGroupsSynced(db, ri, hi) else db
  }

  /** What the Register-side linker promises. */
  lemma LinkFromRegisterSpec(db: Db, ri: nat, raw: bool)
    requires ri < |db.registers|
    ensures var db', r := LinkFromRegister(db, ri, raw), db.registers[ri];
      // skipped for raw saves and blank keys
      && (raw || Blank(r.hemisId) || Blank(r.pnfl) ==> db' == db)
      && LinkerStep(db, db', ri)
      // any change leaves the register linked; activation only with a new link
      && (db' != db ==> IsLinked(db'.hemis, r.id))
      && (db'.registers[ri].isActive != r.isActive ==> !IsLinked(db.hemis, r.id))
  {
    var db' := LinkFromRegister(db, ri, raw);
    var r := db.registers[ri];
    if !(raw || Blank(r.hemisId) || Blank(r.pnfl)) {
      var hid, p := r.hemisId.value, r.pnfl.value;
      match FirstHemis(db.hemis, UnlinkedKeyIs(hid, p))
      case Some(hi) =>
        if !IsLinked(db.hemis, r.id) {
          var db1 := WithActivated(WithLink(db, hi, r.id), ri);
          SyncIsLinkerStep(db1, ri, hi);
          assert db1.hemis[hi].register == Some(r.id);
          LinkFound(db'.hemis, hi, r.id);
        }
      case None =>
        match FirstHemis(db.hemis, KeyIs(hid, p))
        case None =>
        case Some(hi) =>
          if db.hemis[hi].register == Some(r.id) {
            SyncIsLinkerStep(db, ri, hi);
            LinkFound(db'.hemis, hi, r.id);
          }
    }
  }

  lemma LinkFound(hs: seq<HemisRecord>, hi: nat, rid: nat)
    requires hi < |hs| && hs[hi].register == Some(rid)
    ensures IsLinked(hs, rid)
  {
    assert HemisSelected(hs[hi], LinkedTo(rid));
  }

  /** The outcome of `link_register_with_hemis`, case by case. */
  lemma LinkFromRegisterCases(db: Db, ri: nat, raw: bool)
    requires ri < |db.registers|
    requires !raw && !Blank(db.registers[ri].hemisId) && !Blank(db.registers[ri].pnfl)
    ensures var db', r := LinkFromRegister(db, ri, raw), db.registers[ri];
      var hid, p := r.hemisId.value, r.pnfl.value;
      // no row with this key: nothing happens
      && (FirstHemis(db.hemis, KeyIs(hid, p)).None? ==> db' == db)
      // the lowest-pk unlinked match gets the link, the register becomes active
      && (forall hi :: FirstHemis(db.hemis, UnlinkedKeyIs(hid, p)) == Some(hi) && !IsLinked(db.hemis, r.id) ==>
            && db'.hemis[hi].register == Some(r.id)
            && db'.registers[ri].isActive
            && (forall k :: 0 <= k < |db.hemis| && k != hi ==> db'.hemis[k] == db.hemis[k])
            && (forall k :: 0 <= k < |db.groups| && db.groups[k].isActive
                            && db.groups[k].id in r.registerGroups
                            ==> db.groups[k].id in db'.hemis[hi].telegramGroups))
      // the register already holds another link: the update is rolled back
      && (FirstHemis(db.hemis, UnlinkedKeyIs(hid, p)).Some? && IsLinked(db.hemis, r.id) ==> db' == db)
      // every match is linked: only when the first one is this register's
      // own row are its groups synced, and `is_active` is left alone
      && (forall hi :: FirstHemis(db.hemis, UnlinkedKeyIs(hid, p)).None? && FirstHemis(db.hemis, KeyIs(hid, p)) == Some(hi) ==>
            db' == (if db.hemis[hi].register == Some(r.id) then WithGroupsSynced(db, ri, hi) else db))
  {
    var r := db.registers[ri];
    var hid, p := r.hemisId.value, r.pnfl.value;
    if FirstHemis(db.hemis, KeyIs(hid, p)).None? {
      var u := FirstHemis(db.hemis, UnlinkedKeyIs(hid, p));
      if u.Some? {
        assert HemisSelected(db.hemis[u.value], KeyIs(hid, p));
      }
    }
  }

  /** The fields a HemisTable query looks at. */
  predicate SameKeysAndLinks(hs: seq<HemisRecord>, hs': seq<HemisRecord>) {
    |hs| == |hs'| &&
    forall k :: 0 <= k < |hs| ==>
      hs[k].hemisId == hs'[k].hemisId && hs[k].pnfl == hs'[k].pnfl && hs[k].register == hs'[k].register
  }

  lemma {:induction false} FirstHemisDependsOnKeys(hs: seq<HemisRecord>, hs': seq<HemisRecord>, f: HemisFilter)
    requires SameKeysAndLinks(hs, hs')
    ensures FirstHemis(hs, f) == FirstHemis(hs', f)
    decreases |hs|
  {
    if |hs| > 0 {
      assert HemisSelected(hs[0], f) == HemisSelected(hs'[0], f);
      FirstHemisDependsOnKeys(hs[1..], hs'[1..], f);
    }
  }

  lemma SyncIdempotent(db: Db, ri: nat, hi: nat)
    requires ri < |db.registers| && hi < |db.hemis|
    ensures WithGroupsSynced(WithGroupsSynced(db, ri, hi), ri, hi) == WithGroupsSynced(db, ri, hi)
  {
    var db1 := WithGroupsSynced(db, ri, hi);
    var added := ActiveGroupIds(db.groups, db.registers[ri].registerGroups);
    assert db1.hemis[hi].telegramGroups + added == db1.hemis[hi].telegramGroups;
    assert db1.hemis[hi := db1.hemis[hi].(telegramGroups := db1.hemis[hi].telegramGroups + added)] == db1.hemis;
  }

  /** Saving the same register again changes nothing more: the second run
      finds the link made by the first (or finds nothing to do) and its
      group sync adds nothing new. */
  lemma LinkFromRegisterIdempotent(db: Db, ri: nat, raw: bool)
    requires ri < |db.registers|
    ensures var db1 := LinkFromRegister(db, ri, raw);
      ri < |db1.registers| && LinkFromRegister(db1, ri, raw) == db1
  {
    var db1 := LinkFromRegister(db, ri, raw);
    var r := db.registers[ri];
    LinkFromRegisterSpec(db, ri, raw);
    if db1 != db {
      var hid, p := r.hemisId.value, r.pnfl.value;
      var r1 := db1.registers[ri];
      assert r1.hemisId == r.hemisId && r1.pnfl == r.pnfl && r1.id == r.id;
      assert r1.registerGroups == r.registerGroups;
      match FirstHemis(db.hemis, UnlinkedKeyIs(hid, p))
      case Some(hi) =>
        // linked here; db1 == Sync(Act(Link(db)))
        var db0 := WithActivated(WithLink(db, hi, r.id), ri);
        assert db1 == WithGroupsSynced(db0, ri, hi);
        LinkFound(db1.hemis, hi, r.id);
        if FirstHemis(db1.hemis, UnlinkedKeyIs(hid, p)).None? {
          assert HemisSelected(db1.hemis[hi], KeyIs(hid, p));
          var hk := FirstHemis(db1.hemis, KeyIs(hid, p)).value;
          if db1.hemis[hk].register == Some(r.id) {
            // only row hi links to r in db1
            assert !IsLinked(db.hemis, r.id);
            assert db0.registers[ri].registerGroups == r.registerGroups;
            SyncIdempotent(db0, ri, hi);
          }
        }
      case None =>
        var hi := FirstHemis(db.hemis, KeyIs(hid, p)).value;
        assert db.hemis[hi].register == Some(r.id);
        assert db1 == WithGroupsSynced(db, ri, hi);
        FirstHemisDependsOnKeys(db.hemis, db1.hemis, UnlinkedKeyIs(hid, p));
        FirstHemisDependsOnKeys(db.hemis, db1.hemis, KeyIs(hid, p));
        SyncIdempotent(db, ri, hi);
    }
  }

  // ---------------------------------------------------------------------
  // The updates keep the store's constraints

  lemma SyncKeepsValid(db: Db, ri: nat, hi: nat)
    requires DbValid(db) && ri < |db.registers| && hi < |db.hemis|
    ensures DbValid(WithGroupsSynced(db, ri, hi))
  {
    var db' := WithGroupsSynced(db, ri, hi);
    assert db.registers[ri].registerGroups <= GroupPks(db.groups);
    assert db'.hemis[hi].telegramGroups <= GroupPks(db.groups) by {
      forall id | id in db'.hemis[hi].telegramGroups ensures id in GroupPks(db.groups) {
        if id !in db.hemis[hi].telegramGroups {
          var k :| 0 <= k < |db.groups| && db.groups[k].id == id && db.groups[k].isActive;
          assert db.groups[k] in db.groups;
        }
      }
    }
  }

  lemma LinkKeepsValid(db: Db, hi: nat, ri: nat)
    requires DbValid(db) && hi < |db.hemis| && ri < |db.registers|
    requires !IsLinked(db.hemis, db.registers[ri].id)
    ensures DbValid(WithLink(db, hi, db.registers[ri].id))
  {
    var rid := db.registers[ri].id;
    assert db.registers[ri] in db.registers;
    assert rid in RegisterPks(db.registers);
  }

  lemma ActivateKeepsValid(db: Db, ri: nat)
    requires DbValid(db) && ri < |db.registers|
    ensures DbValid(WithActivated(db, ri))
  {
    var db' := WithActivated(db, ri);
    assert RegisterPks(db'.registers) == RegisterPks(db.registers) by {
      forall x | x in RegisterPks(db.registers) ensures x in RegisterPks(db'.registers) {
        var r :| r in db.registers && r.id == x;
        var k :| 0 <= k < |db.registers| && db.registers[k] == r;
        assert db'.registers[k].id == x;
      }
      forall x | x in RegisterPks(db'.registers) ensures x in RegisterPks(db.registers) {
        var r :| r in db'.registers && r.id == x;
        var k :| 0 <= k < |db'.registers| && db'.registers[k] == r;
        assert db.registers[k].id == x;
      }
    }
  }

  lemma LinkFromRegisterKeepsValid(db: Db, ri: nat, raw: bool)
    requires DbValid(db) && ri < |db.registers|
    ensures DbValid(LinkFromRegister(db, ri, raw))
  {
    var r := db.registers[ri];
    if !(raw || Blank(r.hemisId) || Blank(r.pnfl)) {
      var hid, p := r.hemisId.value, r.pnfl.value;
      match FirstHemis(db.hemis, UnlinkedKeyIs(hid, p))
      case Some(hi) =>
        if !IsLinked(db.hemis, r.id) {
          LinkKeepsValid(db, hi, ri);
          var db0 := WithLink(db, hi, r.id);
          ActivateKeepsValid(db0, ri);
          SyncKeepsValid(WithActivated(db0, ri), ri, hi);
        }
      case None =>
        match FirstHemis(db.hemis, KeyIs(hid, p))
        case None =>
        case Some(hi) =>
          SyncKeepsValid(db, ri, hi);
    }
  }

  // ---------------------------------------------------------------------
  // link_hemis_with_register

  /** `registers.filter(is_active=False).first()`, or failing that
      `registers.first()`, among the registers with the row's key. */
  function ChosenRegister(rs: seq<Register>, hid: string, p: string): (r: Option<nat>)
    ensures r.Some? ==> r.value < |rs| && RegisterSelected(rs[r.value], RegisterKeyIs(hid, p))
    ensures r.None? <==> forall k :: 0 <= k < |rs| ==> !RegisterSelected(rs[k], RegisterKeyIs(hid, p))
    ensures FirstRegister(rs, InactiveKeyIs(hid, p)).Some? ==> r == FirstRegister(rs, InactiveKeyIs(hid, p))
    ensures FirstRegister(rs, InactiveKeyIs(hid, p)).None? ==> r == FirstRegister(rs, RegisterKeyIs(hid, p))
  {
    match FirstRegister(rs, InactiveKeyIs(hid, p))
    case Some(k) => Some(k)
    case None => FirstRegister(rs, RegisterKeyIs(hid, p))
  }

  /** `link_hemis_with_register` for the HemisTable row at index `hi`,
      just saved; `created` tells whether the save inserted it. */
  function LinkFromHemis(db: Db, hi: nat, created: bool, raw: bool): (db': Db)
    requires hi < |db.hemis|
  {
    var h := db.hemis[hi];
    if raw || !created || h.hemisId == "" || h.pnfl == "" then db
    else
      match ChosenRegister(db.registers, h.hemisId, h.pnfl)
      case None => db
      case Some(ri) =>
        var rid := db.registers[ri].id;
        if h.register.Some? || IsLinked(db.hemis, rid) then db
        else WithGroupsSynced(WithActivated(WithLink(db, hi, rid), ri), ri, hi)
  }

  /** What the HemisTable-side linker promises. */
  lemma LinkFromHemisSpec(db: Db, hi: nat, created: bool, raw: bool)
    requires hi < |db.hemis|
    ensures var db', h := LinkFromHemis(db, hi, created, raw), db.hemis[hi];
      // only fresh inserts with a full key are reconciled, and only while
      // the row has no register yet
      && (raw || !created || h.hemisId == "" || h.pnfl == "" || h.register.Some? ==> db' == db)
      && |db'.hemis| == |db.hemis|
      // a change is the work of one chosen register: the row now links to it
      && (db' != db ==>
            var ri := ChosenRegister(db.registers, h.hemisId, h.pnfl).value;
            && LinkerStep(db, db', ri)
            && db'.hemis[hi].register == Some(db.registers[ri].id)
            && db'.registers[ri].isActive
            && (forall k :: 0 <= k < |db.hemis| && k != hi ==> db'.hemis[k] == db.hemis[k]))
      // it links whenever a register with the key exists and is free
      && (forall ri :: !raw && created && h.hemisId != "" && h.pnfl != "" && h.register.None?
                       && ChosenRegister(db.registers, h.hemisId, h.pnfl) == Some(ri)
                       && !IsLinked(db.hemis, db.registers[ri].id)
                       ==> db'.hemis[hi].register == Some(db.registers[ri].id))
  {
    var db', h := LinkFromHemis(db, hi, created, raw), db.hemis[hi];
    if db' != db {
      var ri := ChosenRegister(db.registers, h.hemisId, h.pnfl).value;
      var db0 := WithActivated(WithLink(db, hi, db.registers[ri].id), ri);
      SyncIsLinkerStep(db0, ri, hi);
    }
  }

  /** After the row is linked, a repeated save does nothing. */
  lemma LinkFromHemisIdempotent(db: Db, hi: nat, created: bool, raw: bool)
    requires hi < |db.hemis|
    ensures var db1 := LinkFromHemis(db, hi, created, raw);
      hi < |db1.hemis| && LinkFromHemis(db1, hi, created, raw) == db1
  {
    LinkFromHemisSpec(db, hi, created, raw);
  }

  lemma LinkFromHemisKeepsValid(db: Db, hi: nat, created: bool, raw: bool)
    requires DbValid(db) && hi < |db.hemis|
    ensures DbValid(LinkFromHemis(db, hi, created, raw))
  {
    var h := db.hemis[hi];
    if !(raw || !created || h.hemisId == "" || h.pnfl == "") {
      match ChosenRegister(db.registers, h.hemisId, h.pnfl)
      case None =>
      case Some(ri) =>
        var rid := db.registers[ri].id;
        if !(h.register.Some? || IsLinked(db.hemis, rid)) {
          LinkKeepsValid(db, hi, ri);
          var db0 := WithLink(db, hi, rid);
          ActivateKeepsValid(db0, ri);
          SyncKeepsValid(WithActivated(db0, ri), ri, hi);
        }
    }
  }

  // ---------------------------------------------------------------------
  // sync_register_groups_to_hemis

  /** The `action` of an `m2m_changed` signal. */
  datatype M2MAction = PreAdd | PostAdd | PreRemove | PostRemove | PreClear | PostClear

  /** `sync_register_groups_to_hemis` for a change to the `register_groups`
      of the register at index `ri`, after the change: the register's
      linked row (its `hemis_data`) gains the active groups among `pkSet`
      on `post_add` and loses all of `pkSet` on `post_remove`. */
  function MirrorGroupChange(db: Db, ri: nat, action: M2MAction, pkSet: set<nat>): (db': Db)
    requires ri < |db.registers|
    ensures var rid := db.registers[ri].id;
      && db'.groups == db.groups && db'.registers == db.registers && |db'.hemis| == |db.hemis|
      // other actions, or a register without a linked row: nothing changes
      && ((action != PostAdd && action != PostRemove) || !IsLinked(db.hemis, rid) ==> db' == db)
      // only the groups of the linked row (its `hemis_data`) change
      && (forall hi :: FirstHemis(db.hemis, LinkedTo(rid)) == Some(hi) ==>
            && (forall k :: 0 <= k < |db.hemis| && k != hi ==> db'.hemis[k] == db.hemis[k])
            && db'.hemis[hi] == db.hemis[hi].(telegramGroups := db'.hemis[hi].telegramGroups)
            && (action == PostAdd ==>
                  && db'.hemis[hi].telegramGroups >= db.hemis[hi].telegramGroups
                  && db'.hemis[hi].telegramGroups - db.hemis[hi].telegramGroups <= pkSet
                  && (forall g :: 0 <= g < |db.groups| && db.groups[g].isActive && db.groups[g].id in pkSet
                                  ==> db.groups[g].id in db'.hemis[hi].telegramGroups)
                  && (forall id :: id in db'.hemis[hi].telegramGroups - db.hemis[hi].telegramGroups ==>
                        exists g :: 0 <= g < |db.groups| && db.groups[g].id == id && db.groups[g].isActive))
            && (action == PostRemove ==>
                  db'.hemis[hi].telegramGroups == db.hemis[hi].telegramGroups - pkSet))
  {
    if action != PostAdd && action != PostRemove then db
    else
      match FirstHemis(db.hemis, LinkedTo(db.registers[ri].id))
      case None => db
      case Some(hi) =>
        var h := db.hemis[hi];
        if pkSet == {} then db
        else if action == PostAdd then
          db.(hemis := db.hemis[hi := h.(telegramGroups := h.telegramGroups + ActiveGroupIds(db.groups, pkSet))])
        else
          db.(hemis := db.hemis[hi := h.(telegramGroups := h.telegramGroups - pkSet)])
  }


  /** Removing the groups that were just added leaves the linked row with
      its old groups minus those. */
  lemma MirrorAddThenRemove(db: Db, ri: nat, pkSet: set<nat>)
    requires ri < |db.registers|
    ensures var db2 := MirrorGroupChange(MirrorGroupChange(db, ri, PostAdd, pkSet), ri, PostRemove, pkSet);
      && db2.registers == db.registers && |db2.hemis| == |db.hemis|
      && forall hi :: FirstHemis(db.hemis, LinkedTo(db.registers[ri].id)) == Some(hi) ==>
           db2.hemis[hi] == db.hemis[hi].(telegramGroups := db.hemis[hi].telegramGroups - pkSet)
  {
    var db1 := MirrorGroupChange(db, ri, PostAdd, pkSet);
    FirstHemisDependsOnKeys(db.hemis, db1.hemis, LinkedTo(db.registers[ri].id));
  }

  lemma MirrorKeepsValid(db: Db, ri: nat, action: M2MAction, pkSet: set<nat>)
    requires DbValid(db) && ri < |db.registers|
    ensures DbValid(MirrorGroupChange(db, ri, action, pkSet))
  {
    var db' := MirrorGroupChange(db, ri, action, pkSet);
    var first := FirstHemis(db.hemis, LinkedTo(db.registers[ri].id));
    if first.Some? && action == PostAdd {
      var hi := first.value;
      assert db'.hemis[hi].telegramGroups <= GroupPks(db.groups) by {
        forall id | id in db'.hemis[hi].telegramGroups ensures id in GroupPks(db.groups) {
          if id !in db.hemis[hi].telegramGroups {
            var k :| 0 <= k < |db.groups| && db.groups[k].id == id && db.groups[k].isActive;
            assert db.groups[k] in db.groups;
          }
        }
      }
    }
  }

  // ---------------------------------------------------------------------
  // update_group_status

  /** Number of HemisTable rows that list the group. */
  function RowsInGroup(hs: seq<HemisRecord>, groupPk: nat): (n: nat)
    ensures n <= |hs|
    ensures n == 0 <==> forall k :: 0 <= k < |hs| ==> groupPk !in hs[k].telegramGroups
  {
    if hs == [] then 0
    else RowsInGroup(hs[..|hs| - 1], groupPk) + (if groupPk in hs[|hs| - 1].telegramGroups then 1 else 0)
  }

  /** `update_group_status` after a save of the group at index `gi`: for
      an update that left the group inactive it counts the HemisTable
      rows in that group, for the log only. It has no `modifies` clause:
      the store is never changed. */
  method UpdateGroupStatus(st: Store, gi: nat, created: bool, raw: bool) returns (logged: Option<nat>)
    requires gi < |st.groups|
    ensures logged.Some? <==> !raw && !created && !st.groups[gi].isActive
    ensures logged.Some? ==> logged.value == RowsInGroup(st.hemis, st.groups[gi].id)
  {
    if raw || created {
      return None;
    }
    var g := st.groups[gi];
    if !g.isActive {
      logged := Some(RowsInGroup(st.hemis, g.id));
    } else {
      logged := None;
    }
  }

  // ---------------------------------------------------------------------
  // The handlers as updates of the store

  /** `_sync_groups_for_register` / `_sync_groups_for_hemis`: one `add`
      per active group of the register that the row does not have yet. */
  method SyncRegisterGroups(st: Store, ri: nat, hi: nat)
    requires ri < |st.registers| && hi < |st.hemis|
    modifies st
    ensures st.State() == WithGroupsSynced(old(st.State()), ri, hi)
    ensures old(st.Valid()) ==> st.Valid()
  {
    var members := st.registers[ri].registerGroups;
    ghost var before := st.hemis[hi];
    var j := 0;
    while j < |st.groups|
      invariant 0 <= j <= |st.groups|
      invariant st.groups == old(st.groups) && st.registers == old(st.registers)
      invariant |st.hemis| == |old(st.hemis)|
      invariant forall k :: 0 <= k < |st.hemis| && k != hi ==> st.hemis[k] == old(st.hemis[k])
      invariant st.hemis[hi] == before.(telegramGroups := before.telegramGroups + ActiveGroupIds(st.groups[..j], members))
    {
      var g := st.groups[j];
      assert st.groups[..j + 1] == st.groups[..j] + [g];
      if g.id in members && g.isActive && g.id !in st.hemis[hi].telegramGroups {
        st.hemis := st.hemis[hi := st.hemis[hi].(telegramGroups := st.hemis[hi].telegramGroups + {g.id})];
      }
      j := j + 1;
    }
    assert st.groups[..j] == st.groups;
    if old(st.Valid()) {
      SyncKeepsValid(old(st.State()), ri, hi);
    }
  }

  /** `link_register_with_hemis`, post_save of the Register at index `ri`. */
  method LinkRegisterWithHemis(st: Store, ri: nat, raw: bool)
    requires ri < |st.registers|
    modifies st
    ensures st.State() == LinkFromRegister(old(st.State()), ri, raw)
    ensures old(st.Valid()) ==> st.Valid()
  {
    if st.Valid() {
      LinkFromRegisterKeepsValid(st.State(), ri, raw);
    }
    var r := st.registers[ri];
    if raw || Blank(r.hemisId) || Blank(r.pnfl) {
      return;
    }
    var hid, p := r.hemisId.value, r.pnfl.value;
    var any := FirstHemis(st.hemis, KeyIs(hid, p));
    if any.None? {
      return;   // logged: no HemisTable row
    }
    var unlinked := FirstHemis(st.hemis, UnlinkedKeyIs(hid, p));
    if unlinked.None? {
      var hi := any.value;
      if st.hemis[hi].register == Some(r.id) {
        SyncRegisterGroups(st, ri, hi);
      }
      return;
    }
    var hi := unlinked.value;
    if IsLinked(st.hemis, r.id) {
      return;   // the update violates the one-to-one link and is rolled back
    }
    st.hemis := st.hemis[hi := st.hemis[hi].(register := Some(r.id))];
    if !r.isActive {
      st.registers := st.registers[ri := r.(isActive := true)];
    }
    SyncRegisterGroups(st, ri, hi);
  }

  /** `link_hemis_with_register`, post_save of the HemisTable row at index `hi`. */
  method LinkHemisWithRegister(st: Store, hi: nat, created: bool, raw: bool)
    requires hi < |st.hemis|
    modifies st
    ensures st.State() == LinkFromHemis(old(st.State()), hi, created, raw)
    ensures old(st.Valid()) ==> st.Valid()
  {
    if st.Valid() {
      LinkFromHemisKeepsValid(st.State(), hi, created, raw);
    }
    var h := st.hemis[hi];
    if raw || !created || h.hemisId == "" || h.pnfl == "" {
      return;
    }
    var chosen := FirstRegister(st.registers, InactiveKeyIs(h.hemisId, h.pnfl));
    if chosen.None? {
      chosen := FirstRegister(st.registers, RegisterKeyIs(h.hemisId, h.pnfl));
    }
    if chosen.None? {
      return;   // logged: no Register
    }
    var ri := chosen.value;
    var r := st.registers[ri];
    if h.register.Some? || IsLinked(st.hemis, r.id) {
      return;
    }
    st.hemis := st.hemis[hi := h.(register := Some(r.id))];
    if !r.isActive {
      st.registers := st.registers[ri := r.(isActive := true)];
    }
    SyncRegisterGroups(st, ri, hi);
  }

  /** `sync_register_groups_to_hemis`, m2m_changed on the register at index `ri`. */
  method SyncRegisterGroupsToHemis(st: Store, ri: nat, action: M2MAction, pkSet: set<nat>)
    requires ri < |st.registers|
    modifies st
    ensures st.State() == MirrorGroupChange(old(st.State()), ri, action, pkSet)
    ensures old(st.Valid()) ==> st.Valid()
  {
    if st.Valid() {
      MirrorKeepsValid(st.State(), ri, action, pkSet);
    }
    if action != PostAdd && action != PostRemove {
      return;
    }
    var linked := FirstHemis(st.hemis, LinkedTo(st.registers[ri].id));
    if linked.None? {
      return;
    }
    var hi := linked.value;
    if action == PostAdd && pkSet != {} {
      AddActiveGroups(st, hi, pkSet);
    } else if action == PostRemove && pkSet != {} {
      st.hemis := st.hemis[hi := st.hemis[hi].(telegramGroups := st.hemis[hi].telegramGroups - pkSet)];
    }
  }

  /** The loop `for group in TelegramGroup.objects.filter(id__in=pk_set,
      is_active=True)`, adding each group the row is not yet in. */
  method AddActiveGroups(st: Store, hi: nat, pkSet: set<nat>)
    requires hi < |st.hemis|
    modifies st
    ensures st.groups == old(st.groups) && st.registers == old(st.registers)
    ensures st.hemis == old(st.hemis)[hi := old(st.hemis[hi]).(telegramGroups :=
      old(st.hemis[hi]).telegramGroups + ActiveGroupIds(old(st.groups), pkSet))]
  {
    var gs, hs := st.groups, st.hemis;
    var groups := hs[hi].telegramGroups;
    assert ActiveGroupIds(gs[..0], pkSet) == {};
    assert hs[hi := hs[hi].(telegramGroups := groups)] == hs;
    var j := 0;
    while j < |gs|
      invariant 0 <= j <= |gs|
      invariant st.groups == gs && st.registers == old(st.registers)
      invariant groups == hs[hi].telegramGroups + ActiveGroupIds(gs[..j], pkSet)
      invariant st.hemis == hs[hi := hs[hi].(telegramGroups := groups)]
    {
      var g := gs[j];
      assert gs[..j + 1] == gs[..j] + [g];
      ActiveGroupIdsSnoc(gs[..j], g, pkSet);
      if g.id in pkSet && g.isActive && g.id !in groups {
        groups := groups + {g.id};
        st.hemis := st.hemis[hi := st.hemis[hi].(telegramGroups := groups)];
      }
      j := j + 1;
    }
    assert gs[..j] == gs;
  }
}
