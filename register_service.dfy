/** Register selection and the bulk status update of `RegisterService`,
    and the text sanitiser `DataFrameImageGenerator.clean_text_for_display`
    (core/views/views.py).

    A group given to the selection, or found by pk for the update,
    restricts the registers to those whose `register_group_id` equals the
    group's pk: `register_group=group` compares the column with the
    object's primary key. */
module RegisterService {
  import opened Wrappers
  import opened Text
  import opened Entities

  // ---------------------------------------------------------------------
  // get_users_by_criteria

  datatype Target = RegTrue | RegFalse | Teacher | Unknown(name: string)

  /** The target names the view passes; any other string selects nothing. */
  function ParseTarget(s: string): (t: Target)
    ensures s == "reg_true" <==> t == RegTrue
    ensures s == "reg_false" <==> t == RegFalse
    ensures s == "teacher" <==> t == Teacher
    ensures t.Unknown? ==> t.name == s
  {
    if s == "reg_true" then RegTrue
    else if s == "reg_false" then RegFalse
    else if s == "teacher" then Teacher
    else Unknown(s)
  }

  /** The registers of group pk `scope`, or all of them when `scope` is None. */
  predicate InScope(r: Register, scope: Option<nat>) {
    scope.None? || r.registerGroupId == scope.value
  }

  predicate TargetHolds(r: Register, t: Target) {
    match t
    case RegTrue => r.isActive && !r.isTeacher
    case RegFalse => !r.isActive && !r.isTeacher
    case Teacher => r.isTeacher
    case Unknown(_) => false
  }

  /** The registers of `rs` in scope that `t` selects, in store order. */
  function Selected(rs: seq<Register>, t: Target, scope: Option<nat>): (r: seq<Register>)
    ensures |r| <= |rs|
    ensures forall x :: x in r <==> x in rs && InScope(x, scope) && TargetHolds(x, t)
    ensures t.Unknown? ==> r == []
    decreases |rs|
  {
    if rs == [] then []
    else
      var last := rs[|rs| - 1];
      Selected(rs[..|rs| - 1], t, scope) + (if InScope(last, scope) && TargetHolds(last, t) then [last] else [])
  }

  /** `get_users_by_criteria(target, group)`: a given group narrows the
      selection to its registers. */
  function UsersByCriteria(rs: seq<Register>, target: string, group: Option<TelegramGroup>): (r: seq<Register>)
    ensures forall x :: x in r <==>
      && x in rs
      && (group.Some? ==> x.registerGroupId == group.value.id)
      && ((target == "reg_true" && x.isActive && !x.isTeacher)
          || (target == "reg_false" && !x.isActive && !x.isTeacher)
          || (target == "teacher" && x.isTeacher))
    ensures target != "reg_true" && target != "reg_false" && target != "teacher" ==> r == []
  {
    var scope := if group.Some? then Some(group.value.id) else None;
    Selected(rs, ParseTarget(target), scope)
  }

  function CountInScope(rs: seq<Register>, scope: Option<nat>): nat
    decreases |rs|
  {
    if rs == [] then 0
    else CountInScope(rs[..|rs| - 1], scope) + (if InScope(rs[|rs| - 1], scope) then 1 else 0)
  }

  /** The three lists the register table shows split the registers in
      scope: every one of them is in exactly one list. */
  lemma {:induction false} CriteriaPartitionScope(rs: seq<Register>, scope: Option<nat>)
    ensures |Selected(rs, RegTrue, scope)| + |Selected(rs, RegFalse, scope)| + |Selected(rs, Teacher, scope)|
              == CountInScope(rs, scope)
    ensures forall x :: x in rs && InScope(x, scope) ==>
      var (a, b, c) := (x in Selected(rs, RegTrue, scope), x in Selected(rs, RegFalse, scope),
                        x in Selected(rs, Teacher, scope));
      (a || b || c) && !(a && b) && !(a && c) && !(b && c)
    decreases |rs|
  {
    if rs != [] {
      CriteriaPartitionScope(rs[..|rs| - 1], scope);
    }
  }

  /** A register in scope is found among the rows counted. */
  lemma {:induction false} CountInScopeWitness(rs: seq<Register>, scope: Option<nat>)
    requires CountInScope(rs, scope) > 0
    ensures exists k :: 0 <= k < |rs| && InScope(rs[k], scope)
    decreases |rs|
  {
    var n := |rs|;
    if !InScope(rs[n - 1], scope) {
      CountInScopeWitness(rs[..n - 1], scope);
      var k :| 0 <= k < n - 1 && InScope(rs[..n - 1][k], scope);
      assert rs[k] == rs[..n - 1][k];
    }
  }

  /** No two registers share a `register_group_id`. */
  predicate GroupColumnUnique(rs: seq<Register>) {
    forall i, j :: 0 <= i < j < |rs| ==> rs[i].registerGroupId != rs[j].registerGroupId
  }

  lemma {:induction false} ScopeCountAtMostOne(rs: seq<Register>, pk: nat)
    requires GroupColumnUnique(rs)
    ensures CountInScope(rs, Some(pk)) <= 1
    decreases |rs|
  {
    if rs != [] {
      var n := |rs|;
      var pre := rs[..n - 1];
      assert forall k :: 0 <= k < n - 1 ==> pre[k] == rs[k];
      ScopeCountAtMostOne(pre, pk);
      if InScope(rs[n - 1], Some(pk)) && CountInScope(pre, Some(pk)) > 0 {
        // an earlier register would share the last one's `register_group_id`
        CountInScopeWitness(pre, Some(pk));
        assert false;
      }
    }
  }

  /** `register_group_id` is unique, so the scope of one group holds at
      most one register, and the three lists of that group hold at most
      one register between them. */
  lemma ScopeHoldsAtMostOne(rs: seq<Register>, groupPks: set<nat>, pk: nat)
    requires RegistersValid(rs, groupPks)
    ensures CountInScope(rs, Some(pk)) <= 1
    ensures |Selected(rs, RegTrue, Some(pk))| + |Selected(rs, RegFalse, Some(pk))|
              + |Selected(rs, Teacher, Some(pk))| <= 1
  {
    ScopeCountAtMostOne(rs, pk);
    CriteriaPartitionScope(rs, Some(pk));
  }

  // ---------------------------------------------------------------------
  // bulk_update_status

  /** One scoped queryset update: which rows it matches and what it sets. */
  datatype Update =
    | PromoteStudents(ids: set<nat>)   // filter(id__in, is_active=False, is_teacher=False).update(is_active=True, is_teacher=False)
    | PromoteTeachers(ids: set<nat>)   // filter(id__in).update(is_teacher=True, is_active=True)

  predicate Matches(r: Register, scope: Option<nat>, u: Update) {
    && InScope(r, scope)
    && match u
       case PromoteStudents(ids) => r.id in ids && !r.isActive && !r.isTeacher
       case PromoteTeachers(ids) => r.id in ids
  }

  function Apply(r: Register, u: Update): Register {
    match u
    case PromoteStudents(_) => r.(isActive := true, isTeacher := false)
    case PromoteTeachers(_) => r.(isTeacher := true, isActive := true)
  }

  /** One register after the update: the new flags if it matches. */
  function Updated(r: Register, scope: Option<nat>, u: Update): Register {
    if Matches(r, scope, u) then Apply(r, u) else r
  }

  /** The registers after the update, each in its place. */
  function UpdateAll(rs: seq<Register>, scope: Option<nat>, u: Update): (rs': seq<Register>)
    ensures |rs'| == |rs|
    decreases |rs|
  {
    if rs == [] then [] else UpdateAll(rs[..|rs| - 1], scope, u) + [Updated(rs[|rs| - 1], scope, u)]
  }

  /** Every register is updated in its own place: a matched row gets the
      new flags, any other row stays as it was. */
  lemma {:induction false} UpdateAllAt(rs: seq<Register>, scope: Option<nat>, u: Update)
    ensures forall k :: 0 <= k < |rs| ==> UpdateAll(rs, scope, u)[k] == Updated(rs[k], scope, u)
    decreases |rs|
  {
    if rs != [] {
      UpdateAllAt(rs[..|rs| - 1], scope, u);
    }
  }

  /** The number of rows the update matches, which is what `.update()` returns. */
  function CountMatches(rs: seq<Register>, scope: Option<nat>, u: Update): (n: nat)
    ensures n <= |rs|
    decreases |rs|
  {
    if rs == [] then 0
    else CountMatches(rs[..|rs| - 1], scope, u) + (if Matches(rs[|rs| - 1], scope, u) then 1 else 0)
  }

  datatype Response = Success(updatedCount: nat) | Failure(error: string)

  const GroupNotFound := "Guruh topilmadi"

  /** The text of the `ValueError` Django raises when a pk lookup is given
      a text `int()` refuses. */
  function NotANumber(posted: string): string {
    "Field 'id' expected a number but got '" + posted + "'."
  }

  /** The scope `bulk_update_status` works in, from the posted `group_id`:
      all registers (Ok(None)) when it is absent or empty, which Python
      reads as false; otherwise `get(id=...)` runs the text through
      `int()`, a text it refuses raises Django's ValueError, and a number
      no group has as pk (0 included) is "Guruh topilmadi". */
  function ScopeOf(gs: seq<TelegramGroup>, groupId: Option<string>): (s: Result<Option<nat>>)
    ensures s == Ok(None) <==> groupId.None? || groupId == Some("")
    ensures groupId.Some? && groupId.value != "" && !IsIntText(Strip(groupId.value)) ==>
      s == Err(NotANumber(groupId.value))
    ensures groupId.Some? && groupId.value != "" && IsIntText(Strip(groupId.value)) ==>
      var pk := ParseInt(Strip(groupId.value));
      && (s == Err(GroupNotFound) <==> forall k :: 0 <= k < |gs| ==> gs[k].id != pk)
      && (s.Ok? ==> s.value.Some? && s.value.value == pk)
  {
    if groupId.None? || groupId.value == "" then Ok(None)
    else
      var t := Strip(groupId.value);
      if !IsIntText(t) then Err(NotANumber(groupId.value))
      else
        var pk := ParseInt(t);
        match FirstGroup(gs, PkIs(if pk < 0 then 0 else pk as nat))
        case Some(k) => if pk < 0 then Err(GroupNotFound) else Ok(Some(gs[k].id))
        case None => Err(GroupNotFound)
  }

  /** A posted "0" is a non-empty, hence true, text: it is looked up as pk 0
      rather than selecting every register, and with auto-increment pks,
      which start at 1, no group has it. */
  lemma PostedZeroIsLookedUp(gs: seq<TelegramGroup>)
    ensures ScopeOf(gs, Some("0")) != Ok(None)
    ensures (forall k :: 0 <= k < |gs| ==> gs[k].id >= 1) ==> ScopeOf(gs, Some("0")) == Err(GroupNotFound)
  {
    assert Strip("0") == "0" by { StripSpec("0"); }
  }

  /** The pk of a stored group, posted as its decimal text, scopes the
      update to that group. */
  lemma PostedPkScopesGroup(gs: seq<TelegramGroup>, k: nat)
    requires k < |gs|
    ensures ScopeOf(gs, Some(NatToDecimal(gs[k].id))) == Ok(Some(gs[k].id))
  {
    var t := NatToDecimal(gs[k].id);
    StripSpec(t);
    IntRoundTrip(gs[k].id);
  }

  /** One `if ids: ....update(...)` step: the registers after it and the
      rows it matched, or nothing for an empty id list. */
  function Pass(rs: seq<Register>, scope: Option<nat>, ids: seq<nat>, u: Update): (seq<Register>, nat) {
    if ids != [] then (UpdateAll(rs, scope, u), CountMatches(rs, scope, u)) else (rs, 0)
  }

  /** The two updates of `bulk_update_status` in scope: the student
      update, then the teacher update on the rows as the first left them;
      the registers after both and the rows matched in all. */
  function Promote(rs: seq<Register>, scope: Option<nat>, activeIds: seq<nat>, teacherIds: seq<nat>): (seq<Register>, nat) {
    var (rs1, n1) := Pass(rs, scope, activeIds, PromoteStudents(IdSet(activeIds)));
    var (rs2, n2) := Pass(rs1, scope, teacherIds, PromoteTeachers(IdSet(teacherIds)));
    (rs2, n1 + n2)
  }

  /** `bulk_update_status` on the store. */
  function BulkUpdate(db: Db, groupId: Option<string>, activeIds: seq<nat>, teacherIds: seq<nat>): (Db, Response) {
    match ScopeOf(db.groups, groupId)
    case Err(e) => (db, Failure(e))
    case Ok(scope) =>
      var (rs, n) := Promote(db.registers, scope, activeIds, teacherIds);
      (db.(registers := rs), Success(n))
  }

  /** The effect on each register, stated without the two passes: a
      teacher id in scope becomes an active teacher, a student id in scope
      that was neither active nor a teacher becomes active, and every other
      register stays as it was. Groups and HemisTable rows do not change;
      a failed group lookup changes nothing and reports its error. */
  lemma BulkUpdateEffect(db: Db, groupId: Option<string>, activeIds: seq<nat>, teacherIds: seq<nat>)
    ensures var (db', resp) := BulkUpdate(db, groupId, activeIds, teacherIds);
      && db'.groups == db.groups && db'.hemis == db.hemis
      && |db'.registers| == |db.registers|
      && match ScopeOf(db.groups, groupId)
         case Err(e) => db' == db && resp == Failure(e)
         case Ok(scope) =>
           && resp.Success?
           && forall k :: 0 <= k < |db.registers| ==>
                var r := db.registers[k];
                db'.registers[k] ==
                  if InScope(r, scope) && r.id in teacherIds then r.(isTeacher := true, isActive := true)
                  else if InScope(r, scope) && r.id in activeIds && !r.isActive && !r.isTeacher then r.(isActive := true)
                  else r
  {
    match ScopeOf(db.groups, groupId)
    case Err(_) =>
    case Ok(scope) =>
      var students := PromoteStudents(IdSet(activeIds));
      var rs1 := Pass(db.registers, scope, activeIds, students).0;
      PassAt(db.registers, scope, activeIds, students);
      PassAt(rs1, scope, teacherIds, PromoteTeachers(IdSet(teacherIds)));
  }

  /** A guarded update on the ids of `ids` updates every register in its
      place; with no ids nothing matches, so skipping the update agrees. */
  lemma PassAt(rs: seq<Register>, scope: Option<nat>, ids: seq<nat>, u: Update)
    requires u.ids == IdSet(ids)
    ensures |Pass(rs, scope, ids, u).0| == |rs|
    ensures forall k :: 0 <= k < |rs| ==> Pass(rs, scope, ids, u).0[k] == Updated(rs[k], scope, u)
  {
    if ids != [] {
      UpdateAllAt(rs, scope, u);
    }
  }

  /** No flag is ever set to false, and nothing but the two flags changes. */
  lemma BulkUpdateOnlyRaisesFlags(db: Db, groupId: Option<string>, activeIds: seq<nat>, teacherIds: seq<nat>)
    ensures var db' := BulkUpdate(db, groupId, activeIds, teacherIds).0;
      && |db'.registers| == |db.registers|
      && forall k :: 0 <= k < |db.registers| ==>
           var (r, r') := (db.registers[k], db'.registers[k]);
           && (r.isActive ==> r'.isActive) && (r.isTeacher ==> r'.isTeacher)
           && r'.(isActive := r.isActive, isTeacher := r.isTeacher) == r
  {
    BulkUpdateEffect(db, groupId, activeIds, teacherIds);
  }

  /** The reported count is the number of rows the first update matched
      plus the number the second matched. */
  lemma BulkUpdateCount(db: Db, groupId: Option<string>, activeIds: seq<nat>, teacherIds: seq<nat>)
    requires ScopeOf(db.groups, groupId).Ok?
    ensures var scope := ScopeOf(db.groups, groupId).value;
      var students := PromoteStudents(IdSet(activeIds));
      var rs1 := UpdateAll(db.registers, scope, students);
      BulkUpdate(db, groupId, activeIds, teacherIds).1.updatedCount
        == CountMatches(db.registers, scope, students)
           + CountMatches(rs1, scope, PromoteTeachers(IdSet(teacherIds)))
  {
    var scope := ScopeOf(db.groups, groupId).value;
    if activeIds == [] {
      CountMatchesNone(db.registers, scope, PromoteStudents(IdSet(activeIds)));
      UpdateAllNone(db.registers, scope, PromoteStudents(IdSet(activeIds)));
    }
    if teacherIds == [] {
      var rs1 := UpdateAll(db.registers, scope, PromoteStudents(IdSet(activeIds)));
      CountMatchesNone(rs1, scope, PromoteTeachers(IdSet(teacherIds)));
    }
  }

  /** An update that matches no id leaves the registers as they were. */
  lemma {:induction false} UpdateAllNone(rs: seq<Register>, scope: Option<nat>, u: Update)
    requires u.ids == {}
    ensures UpdateAll(rs, scope, u) == rs
    decreases |rs|
  {
    if rs != [] {
      UpdateAllNone(rs[..|rs| - 1], scope, u);
      assert rs == rs[..|rs| - 1] + [rs[|rs| - 1]];
    }
  }

  lemma {:induction false} CountMatchesNone(rs: seq<Register>, scope: Option<nat>, u: Update)
    requires u.ids == {}
    ensures CountMatches(rs, scope, u) == 0
    decreases |rs|
  {
    if rs != [] {
      CountMatchesNone(rs[..|rs| - 1], scope, u);
    }
  }

  /** Only the two flags change, so the store stays valid. */
  lemma BulkUpdateKeepsValid(db: Db, groupId: Option<string>, activeIds: seq<nat>, teacherIds: seq<nat>)
    requires DbValid(db)
    ensures DbValid(BulkUpdate(db, groupId, activeIds, teacherIds).0)
  {
    var db' := BulkUpdate(db, groupId, activeIds, teacherIds).0;
    BulkUpdateOnlyRaisesFlags(db, groupId, activeIds, teacherIds);
    assert forall k :: 0 <= k < |db.registers| ==> db'.registers[k].id == db.registers[k].id;
    assert RegisterPks(db'.registers) == RegisterPks(db.registers) by {
      forall x | x in RegisterPks(db.registers) ensures x in RegisterPks(db'.registers) {
        var k :| 0 <= k < |db.registers| && db.registers[k].id == x;
        assert db'.registers[k] in db'.registers;
      }
    }
  }

  /** The row loop of a `.filter(...).update(...)`: the registers after
      it and the number of rows it matched. */
  method UpdateRows(rs: seq<Register>, scope: Option<nat>, u: Update) returns (updated: seq<Register>, count: nat)
    ensures updated == UpdateAll(rs, scope, u)
    ensures count == CountMatches(rs, scope, u)
  {
    updated, count := [], 0;
    for k := 0 to |rs|
      invariant updated == UpdateAll(rs[..k], scope, u)
      invariant count == CountMatches(rs[..k], scope, u)
    {
      assert rs[..k + 1][..k] == rs[..k];
      if Matches(rs[k], scope, u) {
        updated := updated + [Apply(rs[k], u)];
        count := count + 1;
      } else {
        updated := updated + [rs[k]];
      }
    }
    assert rs[..|rs|] == rs;
  }

  /** A `.filter(...).update(...)` over the registers of the store. */
  method UpdateRegisters(st: Store, scope: Option<nat>, u: Update) returns (count: nat)
    modifies st
    ensures st.registers == UpdateAll(old(st.registers), scope, u)
    ensures count == CountMatches(old(st.registers), scope, u)
    ensures st.groups == old(st.groups) && st.hemis == old(st.hemis)
  {
    st.registers, count := UpdateRows(st.registers, scope, u);
  }

  /** The group lookup of `bulk_update_status`. */
  method FindScope(gs: seq<TelegramGroup>, groupId: Option<string>) returns (scope: Result<Option<nat>>)
    ensures scope == ScopeOf(gs, groupId)
  {
    if groupId.None? || groupId.value == "" {
      return Ok(None);
    }
    var t := Strip(groupId.value);
    if !IsIntText(t) {
      return Err(NotANumber(groupId.value));
    }
    var pk := ParseInt(t);
    var found := if pk < 0 then None else FirstGroup(gs, PkIs(pk as nat));
    if found.None? {
      return Err(GroupNotFound);
    }
    scope := Ok(Some(gs[found.value].id));
  }

  /** `RegisterService.bulk_update_status`. */
  method BulkUpdateStatus(st: Store, groupId: Option<string>, activeIds: seq<nat>, teacherIds: seq<nat>)
    returns (response: Response)
    modifies st
    ensures (st.State(), response) == BulkUpdate(old(st.State()), groupId, activeIds, teacherIds)
    ensures old(st.Valid()) ==> st.Valid()
  {
    if st.Valid() {
      BulkUpdateKeepsValid(st.State(), groupId, activeIds, teacherIds);
    }
    var found := FindScope(st.groups, groupId);
    if found.Err? {
      return Failure(found.message);
    }
    var n := PromoteRegisters(st, found.value, activeIds, teacherIds);
    response := Success(n);
  }

  /** The two updates in scope, each one a queryset update on the store. */
  method PromoteRegisters(st: Store, scope: Option<nat>, activeIds: seq<nat>, teacherIds: seq<nat>)
    returns (updatedCount: nat)
    modifies st
    ensures (st.registers, updatedCount) == Promote(old(st.registers), scope, activeIds, teacherIds)
    ensures st.groups == old(st.groups) && st.hemis == old(st.hemis)
  {
    var n1 := UpdatePass(st, scope, activeIds, PromoteStudents(IdSet(activeIds)));
    var n2 := UpdatePass(st, scope, teacherIds, PromoteTeachers(IdSet(teacherIds)));
    updatedCount := n1 + n2;
  }

  /** One `if ids:` guarded queryset update on the store. */
  method UpdatePass(st: Store, scope: Option<nat>, ids: seq<nat>, u: Update) returns (count: nat)
    modifies st
    ensures (st.registers, count) == Pass(old(st.registers), scope, ids, u)
    ensures st.groups == old(st.groups) && st.hemis == old(st.hemis)
  {
    count := 0;
    if ids != [] {
      count := UpdateRegisters(st, scope, u);
    }
  }

  // ---------------------------------------------------------------------
  // clean_text_for_display

  /** The small capitals the sanitiser spells out, each with its letter. */
  const Replacements: seq<(char, char)> := [
    ('\U{1D0F}', 'o'), ('\U{1D0D}', 'm'), ('\U{1D20}', 'v'), ('\U{1D18}', 'p'),
    ('\U{1D00}', 'a'), ('\U{1D07}', 'e'), ('\U{026A}', 'i'), ('\U{1D1C}', 'u')]

  /** `s.replace(old, new)` for a single character. */
  function ReplaceChar(s: string, from: char, to: char): (r: string)
    ensures |r| == |s|
    ensures forall i :: 0 <= i < |s| ==> r[i] == if s[i] == from then to else s[i]
  {
    seq(|s|, i requires 0 <= i < |s| => if s[i] == from then to else s[i])
  }

  /** `s.encode('ascii', 'ignore').decode('ascii')`: the ASCII characters
      of `s`, in order. */
  function KeepAscii(s: string): (r: string)
    ensures |r| <= |s|
    ensures forall i :: 0 <= i < |r| ==> IsAscii(r[i])
    ensures (forall i :: 0 <= i < |s| ==> IsAscii(s[i])) ==> r == s
    decreases |s|
  {
    if s == [] then []
    else KeepAscii(s[..|s| - 1]) + (if IsAscii(s[|s| - 1]) then [s[|s| - 1]] else [])
  }

  /** The replacements applied in turn to one character. */
  function ReplaceInTurn(c: char, ps: seq<(char, char)>): char
    decreases |ps|
  {
    if ps == [] then c
    else var c' := ReplaceInTurn(c, ps[..|ps| - 1]); if c' == ps[|ps| - 1].0 then ps[|ps| - 1].1 else c'
  }

  /** Where the table sends one character: the letter of its entry, or itself. */
  function Lookup(c: char, ps: seq<(char, char)>): (d: char)
    ensures || (d == c && forall k :: 0 <= k < |ps| ==> ps[k].0 != c)
            || (exists k :: 0 <= k < |ps| && ps[k].0 == c && d == ps[k].1)
    decreases |ps|
  {
    if ps == [] then c
    else if c == ps[|ps| - 1].0 then ps[|ps| - 1].1
    else Lookup(c, ps[..|ps| - 1])
  }

  /** The table's characters are distinct and no letter it writes is one it
      replaces. */
  predicate OneStepTable(ps: seq<(char, char)>) {
    && (forall k, l :: 0 <= k < l < |ps| ==> ps[k].0 != ps[l].0)
    && (forall k, l :: 0 <= k < |ps| && 0 <= l < |ps| ==> ps[k].1 != ps[l].0)
  }

  /** For such a table, applying the replacements in turn is one lookup:
      no replacement feeds another. */
  lemma {:induction false} ReplaceInTurnIsLookup(c: char, ps: seq<(char, char)>)
    requires OneStepTable(ps)
    ensures ReplaceInTurn(c, ps) == Lookup(c, ps)
    decreases |ps|
  {
    if ps != [] {
      var prefix := ps[..|ps| - 1];
      assert OneStepTable(prefix);
      ReplaceInTurnIsLookup(c, prefix);
      var d := Lookup(c, prefix);
      if d != c {
        var k :| 0 <= k < |prefix| && prefix[k].0 == c && d == prefix[k].1;
        assert ps[k] == prefix[k];
      }
    }
  }

  /** The sanitiser's table replaces only characters outside ASCII, by
      ASCII letters, and no replacement feeds another. */
  lemma ReplacementTable()
    ensures OneStepTable(Replacements)
    ensures forall k :: 0 <= k < |Replacements| ==> !IsAscii(Replacements[k].0) && IsAscii(Replacements[k].1)
  {
    var ps := Replacements;
    assert forall k :: 0 <= k < |ps| ==> !IsAscii(ps[k].0) && IsAscii(ps[k].1);
    assert forall k, l :: 0 <= k < |ps| && 0 <= l < |ps| ==> ps[k].1 != ps[l].0;
  }

  /** A character listed in a table with distinct entries goes to its
      own entry's letter. */
  lemma {:induction false} LookupHit(c: char, ps: seq<(char, char)>, k: nat)
    requires forall i, j :: 0 <= i < j < |ps| ==> ps[i].0 != ps[j].0
    requires k < |ps| && ps[k].0 == c
    ensures Lookup(c, ps) == ps[k].1
    decreases |ps|
  {
    if k < |ps| - 1 {
      var prefix := ps[..|ps| - 1];
      assert prefix[k] == ps[k];
      LookupHit(c, prefix, k);
    }
  }

  /** Where one character goes: its letter for a listed small capital,
      itself otherwise. */
  function DisplayChar(c: char): char {
    Lookup(c, Replacements)
  }

  /** A listed small capital becomes its ASCII letter; every other
      character, ASCII ones included, stays. */
  lemma DisplayCharSpec(c: char)
    ensures forall k :: 0 <= k < |Replacements| && Replacements[k].0 == c ==> DisplayChar(c) == Replacements[k].1
    ensures (forall k :: 0 <= k < |Replacements| ==> Replacements[k].0 != c) ==> DisplayChar(c) == c
    ensures IsAscii(c) ==> DisplayChar(c) == c
    ensures (exists k :: 0 <= k < |Replacements| && Replacements[k].0 == c) ==> IsAscii(DisplayChar(c))
  {
    ReplacementTable();
    forall k | 0 <= k < |Replacements| && Replacements[k].0 == c ensures DisplayChar(c) == Replacements[k].1 {
      LookupHit(c, Replacements, k);
    }
  }

  /** Every character of `text` sent where the table sends it. */
  function Displayed(text: string): (r: string)
    ensures |r| == |text|
    ensures forall i :: 0 <= i < |text| ==> r[i] == DisplayChar(text[i])
  {
    seq(|text|, i requires 0 <= i < |text| => DisplayChar(text[i]))
  }

  /** ASCII text has no small capitals, so nothing in it is replaced. */
  lemma DisplayedAscii(text: string)
    requires forall i :: 0 <= i < |text| ==> IsAscii(text[i])
    ensures Displayed(text) == text
  {
    var r := Displayed(text);
    forall i | 0 <= i < |text| ensures r[i] == text[i] {
      DisplayCharSpec(text[i]);
    }
  }

  /** The `str.replace` calls, one after the other over the whole text. */
  method ReplaceSmallCapitals(text: string) returns (replaced: string)
    ensures replaced == Displayed(text)
  {
    replaced := text;
    for j := 0 to |Replacements|
      invariant |replaced| == |text|
      invariant forall i :: 0 <= i < |text| ==> replaced[i] == ReplaceInTurn(text[i], Replacements[..j])
    {
      assert Replacements[..j + 1][..j] == Replacements[..j];
      replaced := ReplaceChar(replaced, Replacements[j].0, Replacements[j].1);
    }
    assert Replacements[..|Replacements|] == Replacements;
    ReplacementTable();
    forall i | 0 <= i < |text| ensures replaced[i] == Displayed(text)[i] {
      ReplaceInTurnIsLookup(text[i], Replacements);
    }
  }

  /** `clean_text_for_display` on a string: replace the small capitals one
      after the other, then drop what is not ASCII. */
  method CleanTextForDisplay(text: string) returns (cleaned: string)
    ensures text == "" ==> cleaned == ""
    ensures cleaned == KeepAscii(Displayed(text))
    ensures forall i :: 0 <= i < |cleaned| ==> IsAscii(cleaned[i])
    ensures (forall i :: 0 <= i < |text| ==> IsAscii(text[i])) ==> cleaned == text
  {
    if text == "" {
      return text;
    }
    var replaced := ReplaceSmallCapitals(text);
    cleaned := KeepAscii(replaced);
    if forall i :: 0 <= i < |text| ==> IsAscii(text[i]) {
      DisplayedAscii(text);
    }
  }
}
