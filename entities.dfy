/** The three tables of the reconciliation engine (core/models.py) and the
    store that holds them.

    `TelegramGroup` and `Register` carry the columns core/models.py
    declares. `Register.hemisId`, `Register.isTeacher` and the
    many-to-many sets (`Register.registerGroups`,
    `HemisRecord.telegramGroups`) are not declared there: they are the
    columns the rest of the code reads, shaped as it reads them, and the
    sets hold primary keys of `TelegramGroup` rows.
    `HemisRecord.register` is the one-to-one link whose reverse side the
    code calls `hemis_data`. Every row has an auto-increment primary key
    `id`, and the store keeps each table ordered by it, so "the first row
    of a query" is the matching row earliest in the sequence. */
module Entities {
  import opened Wrappers
  import opened Text

  datatype TelegramGroup = TelegramGroup(
    id: nat,
    groupName: string,
    groupId: int,       // unique
    isActive: bool)     // defaults to true

  datatype Register = Register(
    id: nat,
    telegramId: int,         // unique
    username: string,
    fio: Option<string>,
    registerGroupId: int,    // unique
    pnfl: Option<string>,    // unique when present
    tgTel: Option<string>,
    tel: Option<string>,
    parentTel: Option<string>,
    address: Option<string>,
    isActive: bool,          // defaults to false
    hemisId: Option<string>,   // undeclared, inferred from use
    isTeacher: bool,           // undeclared; assumed to default to false
    registerGroups: set<nat>)  // undeclared; assumed to start empty

  datatype HemisRecord = HemisRecord(
    id: nat,
    hemisId: string,
    fio: string,
    born: string,
    passport: string,
    pnfl: string,
    course: string,
    studentGroup: string,
    register: Option<nat>,   // one-to-one link to a Register pk
    telegramGroups: set<nat>)

  datatype Db = Db(groups: seq<TelegramGroup>, registers: seq<Register>, hemis: seq<HemisRecord>)

  // ---------------------------------------------------------------------
  // Display

  /** `TelegramGroup.__str__`: the name, then the group id in parentheses. */
  function GroupLabel(g: TelegramGroup): string {
    g.groupName + " (" + IntToDecimal(g.groupId) + ")"
  }

  /** The label starts with the group's name and the text between " (" and
      the closing parenthesis reads back as the group id. */
  lemma GroupLabelReadsBack(g: TelegramGroup)
    ensures var s, n := GroupLabel(g), |g.groupName|;
      && |s| >= n + 4
      && s[..n] == g.groupName
      && s[n..n + 2] == " ("
      && s[|s| - 1] == ')'
      && var digits := s[n + 2..|s| - 1];
         digits == IntToDecimal(g.groupId)
         && ParseInt(digits) == g.groupId
  {
    var s, n := GroupLabel(g), |g.groupName|;
    assert s[n + 2..|s| - 1] == IntToDecimal(g.groupId);
    IntRoundTrip(g.groupId);
  }

  // ---------------------------------------------------------------------
  // Queries: `.filter(...).first()` and `.get(...)`

  datatype HemisFilter =
    | KeyIs(hemisId: string, pnfl: string)
    | UnlinkedKeyIs(hemisId: string, pnfl: string)
    | LinkedTo(registerId: nat)

  predicate HemisSelected(h: HemisRecord, f: HemisFilter) {
    match f
    case KeyIs(hid, p) => h.hemisId == hid && h.pnfl == p
    case UnlinkedKeyIs(hid, p) => h.hemisId == hid && h.pnfl == p && h.register.None?
    case LinkedTo(rid) => h.register == Some(rid)
  }

  /** Index of the first row (lowest pk) the filter selects. */
  function FirstHemis(hs: seq<HemisRecord>, f: HemisFilter): (r: Option<nat>)
    ensures r.Some? ==> r.value < |hs| && HemisSelected(hs[r.value], f)
    ensures r.Some? ==> forall j :: 0 <= j < r.value ==> !HemisSelected(hs[j], f)
    ensures r.None? ==> forall j :: 0 <= j < |hs| ==> !HemisSelected(hs[j], f)
  {
    if |hs| == 0 then None
    else if HemisSelected(hs[0], f) then Some(0)
    else match FirstHemis(hs[1..], f)
      case None => None
      case Some(k) => Some(k + 1)
  }

  datatype RegisterFilter =
    | RegisterKeyIs(hemisId: string, pnfl: string)
    | InactiveKeyIs(hemisId: string, pnfl: string)

  predicate RegisterSelected(r: Register, f: RegisterFilter) {
    match f
    case RegisterKeyIs(hid, p) => r.hemisId == Some(hid) && r.pnfl == Some(p)
    case InactiveKeyIs(hid, p) => r.hemisId == Some(hid) && r.pnfl == Some(p) && !r.isActive
  }

  function FirstRegister(rs: seq<Register>, f: RegisterFilter): (r: Option<nat>)
    ensures r.Some? ==> r.value < |rs| && RegisterSelected(rs[r.value], f)
    ensures r.Some? ==> forall j :: 0 <= j < r.value ==> !RegisterSelected(rs[j], f)
    ensures r.None? ==> forall j :: 0 <= j < |rs| ==> !RegisterSelected(rs[j], f)
  {
    if |rs| == 0 then None
    else if RegisterSelected(rs[0], f) then Some(0)
    else match FirstRegister(rs[1..], f)
      case None => None
      case Some(k) => Some(k + 1)
  }

  datatype GroupFilter =
    | PkIs(pk: nat)
    | GroupIdIs(groupId: int)
    | ActiveGroupIdIs(groupId: int)

  predicate GroupSelected(g: TelegramGroup, f: GroupFilter) {
    match f
    case PkIs(pk) => g.id == pk
    case GroupIdIs(gid) => g.groupId == gid
    case ActiveGroupIdIs(gid) => g.groupId == gid && g.isActive
  }

  function FirstGroup(gs: seq<TelegramGroup>, f: GroupFilter): (r: Option<nat>)
    ensures r.Some? ==> r.value < |gs| && GroupSelected(gs[r.value], f)
    ensures r.Some? ==> forall j :: 0 <= j < r.value ==> !GroupSelected(gs[j], f)
    ensures r.None? ==> forall j :: 0 <= j < |gs| ==> !GroupSelected(gs[j], f)
  {
    if |gs| == 0 then None
    else if GroupSelected(gs[0], f) then Some(0)
    else match FirstGroup(gs[1..], f)
      case None => None
      case Some(k) => Some(k + 1)
  }

  // ---------------------------------------------------------------------
  // Store invariants: the constraints the database enforces

  function GroupPks(gs: seq<TelegramGroup>): set<nat> {
    set g | g in gs :: g.id
  }

  function RegisterPks(rs: seq<Register>): set<nat> {
    set r | r in rs :: r.id
  }

  /** The pks in a list of ids, as the `id__in` lookup reads them. */
  function IdSet(ids: seq<nat>): set<nat> {
    set i | i in ids
  }

  /** Pks increase along the table; `group_id` is unique. */
  predicate GroupsValid(gs: seq<TelegramGroup>) {
    forall i, j :: 0 <= i < j < |gs| ==> gs[i].id < gs[j].id && gs[i].groupId != gs[j].groupId
  }

  /** Pks increase; `telegram_id` and `register_group_id` are unique;
      `pnfl` is unique among the rows where it is not null; group
      memberships name existing groups. */
  predicate RegistersValid(rs: seq<Register>, groupPks: set<nat>) {
    && (forall i, j :: 0 <= i < j < |rs| ==>
          && rs[i].id < rs[j].id
          && rs[i].telegramId != rs[j].telegramId
          && rs[i].registerGroupId != rs[j].registerGroupId
          && (rs[i].pnfl.Some? ==> rs[i].pnfl != rs[j].pnfl))
    && (forall i :: 0 <= i < |rs| ==> rs[i].registerGroups <= groupPks)
  }

  /** Pks increase; no two rows share a student ID (the import keeps it
      so); no register is linked from two rows (one-to-one);
      links and memberships name existing rows. */
  predicate HemisValid(hs: seq<HemisRecord>, registerPks: set<nat>, groupPks: set<nat>) {
    && (forall i, j :: 0 <= i < j < |hs| ==>
          && hs[i].id < hs[j].id
          && hs[i].hemisId != hs[j].hemisId
          && (hs[i].register.Some? ==> hs[i].register != hs[j].register))
    && (forall i :: 0 <= i < |hs| ==>
          (hs[i].register.Some? ==> hs[i].register.value in registerPks)
          && hs[i].telegramGroups <= groupPks)
  }

  predicate DbValid(db: Db) {
    && GroupsValid(db.groups)
    && RegistersValid(db.registers, GroupPks(db.groups))
    && HemisValid(db.hemis, RegisterPks(db.registers), GroupPks(db.groups))
  }

  /** In a valid store the row linked to a register (its `hemis_data`) is
      the only one, so the first row linked to it is that row. */
  lemma LinkedRowIsUnique(db: Db, i: nat, rid: nat)
    requires DbValid(db)
    requires i < |db.hemis| && db.hemis[i].register == Some(rid)
    ensures FirstHemis(db.hemis, LinkedTo(rid)) == Some(i)
  {
  }

  // ---------------------------------------------------------------------
  // Row creation with the column defaults

  /** Largest value in `ids`, 0 for none: the auto-increment counter
      hands out the next one. */
  function MaxId(ids: seq<nat>): (m: nat)
    ensures forall i :: 0 <= i < |ids| ==> ids[i] <= m
  {
    if ids == [] then 0
    else var m := MaxId(ids[..|ids| - 1]); if ids[|ids| - 1] > m then ids[|ids| - 1] else m
  }

  function GroupPk(g: TelegramGroup): nat { g.id }
  function RegisterPk(r: Register): nat { r.id }
  function HemisPk(h: HemisRecord): nat { h.id }

  /** The pk the auto-increment counter hands out next for a table whose
      rows have the pks `pk(xs[k])`: larger than every one of them. */
  function NextPk<T>(xs: seq<T>, pk: T -> nat): (next: nat)
    ensures forall k :: 0 <= k < |xs| ==> pk(xs[k]) < next
  {
    var ids := seq(|xs|, i requires 0 <= i < |xs| => pk(xs[i]));
    assert forall k :: 0 <= k < |xs| ==> ids[k] == pk(xs[k]);
    MaxId(ids) + 1
  }

  datatype IntegrityError = DuplicateGroupId | DuplicateTelegramId | DuplicateRegisterGroupId | DuplicatePnfl

  /** `TelegramGroup.objects.create(group_name=..., group_id=...)`: the new
      row is active unless the unique `group_id` is already taken. */
  function InsertGroup(gs: seq<TelegramGroup>, name: string, groupId: int): (r: (seq<TelegramGroup>, Option<IntegrityError>))
    ensures r.1.None? <==> forall k :: 0 <= k < |gs| ==> gs[k].groupId != groupId
    ensures r.1.Some? ==> r.0 == gs
    ensures r.1.None? ==> |r.0| == |gs| + 1 && r.0[..|gs|] == gs
    ensures r.1.None? ==> var g := r.0[|gs|];
      g.groupName == name && g.groupId == groupId && g.isActive
      && forall k :: 0 <= k < |gs| ==> gs[k].id < g.id
    ensures r.1.None? && GroupsValid(gs) ==> GroupsValid(r.0)
  {
    if FirstGroup(gs, GroupIdIs(groupId)).Some? then (gs, Some(DuplicateGroupId))
    else
      var g := TelegramGroup(NextPk(gs, GroupPk), name, groupId, true);
      (gs + [g], None)
  }

  /** A row that would break one of Register's unique columns. */
  predicate ClashesWith(x: Register, telegramId: int, registerGroupId: int, pnfl: Option<string>) {
    x.telegramId == telegramId || x.registerGroupId == registerGroupId || (pnfl.Some? && x.pnfl == pnfl)
  }

  /** Creating a Register row as the bot does: every column the bot does
      not supply takes its default, so the row starts inactive, not a
      teacher and in no group; the unique columns are checked first. */
  function InsertRegister(rs: seq<Register>, telegramId: int, username: string,
                          registerGroupId: int, pnfl: Option<string>, hemisId: Option<string>)
    : (r: (seq<Register>, Option<IntegrityError>))
    ensures r.1.None? <==> forall k :: 0 <= k < |rs| ==> !ClashesWith(rs[k], telegramId, registerGroupId, pnfl)
    ensures r.1.Some? ==> r.0 == rs
    ensures r.1.None? ==> |r.0| == |rs| + 1 && r.0[..|rs|] == rs
    ensures r.1.None? ==> var x := r.0[|rs|];
      && !x.isActive && !x.isTeacher && x.registerGroups == {}
      && x.telegramId == telegramId && x.registerGroupId == registerGroupId
      && x.pnfl == pnfl && x.hemisId == hemisId
      && forall k :: 0 <= k < |rs| ==> rs[k].id < x.id
  {
    if exists k :: 0 <= k < |rs| && rs[k].telegramId == telegramId then (rs, Some(DuplicateTelegramId))
    else if exists k :: 0 <= k < |rs| && rs[k].registerGroupId == registerGroupId then (rs, Some(DuplicateRegisterGroupId))
    else if pnfl.Some? && exists k :: 0 <= k < |rs| && rs[k].pnfl == pnfl then (rs, Some(DuplicatePnfl))
    else
      var x := Register(NextPk(rs, RegisterPk), telegramId, username, None, registerGroupId, pnfl,
                        None, None, None, None, false, hemisId, false, {});
      (rs + [x], None)
  }

  lemma InsertRegisterKeepsValid(rs: seq<Register>, groupPks: set<nat>, telegramId: int, username: string,
                                 registerGroupId: int, pnfl: Option<string>, hemisId: Option<string>)
    requires RegistersValid(rs, groupPks)
    ensures RegistersValid(InsertRegister(rs, telegramId, username, registerGroupId, pnfl, hemisId).0, groupPks)
  {
    var r := InsertRegister(rs, telegramId, username, registerGroupId, pnfl, hemisId);
    if r.1.None? {
      var rs', n := r.0, |rs|;
      forall i, j | 0 <= i < j < |rs'|
        ensures rs'[i].id < rs'[j].id && rs'[i].telegramId != rs'[j].telegramId
        ensures rs'[i].registerGroupId != rs'[j].registerGroupId
        ensures rs'[i].pnfl.Some? ==> rs'[i].pnfl != rs'[j].pnfl
      {
        if j == n {
          assert rs'[i] == rs[i] && !ClashesWith(rs[i], telegramId, registerGroupId, pnfl);
        } else {
          assert rs'[i] == rs[i] && rs'[j] == rs[j];
        }
      }
      assert forall i :: 0 <= i < |rs'| ==> rs'[i].registerGroups <= groupPks by {
        forall i | 0 <= i < |rs'| ensures rs'[i].registerGroups <= groupPks {
          if i < n { assert rs'[i] == rs[i]; }
        }
      }
    }
  }

  // ---------------------------------------------------------------------
  // The store

  /** The database the signal handlers, the ingestion pipeline and the
      services read and update. */
  class Store {
    var groups: seq<TelegramGroup>
    var registers: seq<Register>
    var hemis: seq<HemisRecord>

    constructor ()
      ensures State() == Db([], [], []) && Valid()
    {
      groups, registers, hemis := [], [], [];
    }

    function State(): Db
      reads this
    {
      Db(groups, registers, hemis)
    }

    predicate Valid()
      reads this
    {
      DbValid(State())
    }
  }
}
