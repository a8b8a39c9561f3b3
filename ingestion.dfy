/** The Excel ingestion pipeline and the dashboard statistics
    (core/views/hemis_teble.py).

    The spreadsheet arrives already parsed: a sequence of rows, each a
    sequence of cells read by position. A cell is either missing (NaN or
    None) or the text `str(value)` gives for it. */
module Ingestion {
  import opened Wrappers
  import opened Text
  import opened Entities

  datatype Cell = Missing | Text(text: string)

  type Row = seq<Cell>

  // Column positions, fixed by convention.
  const IdColumn := 0
  const FioColumn := 1
  const BornColumn := 8
  const PassportColumn := 9
  const PnflColumn := 10
  const CourseColumn := 12
  const StudentGroupColumn := 14

  /** `get_cell_value`: "" past the end of the row or for a missing
      value, otherwise the value with surrounding whitespace removed. */
  function CellValue(row: Row, column: nat): string {
    if column < |row| then
      match row[column]
      case Missing => ""
      case Text(s) => Strip(s)
    else ""
  }

  /** A cell's value is empty for an absent or missing cell, and is
      otherwise the stripped text, which neither starts nor ends with
      whitespace. */
  lemma CellValueCases(row: Row, column: nat)
    ensures var v := CellValue(row, column);
      && (column >= |row| || row[column].Missing? ==> v == "")
      && (column < |row| && row[column].Text? ==> v == Strip(row[column].text))
      && (v == "" || (!IsSpace(v[0]) && !IsSpace(v[|v| - 1])))
  {
    if column < |row| && row[column].Text? {
      StripSpec(row[column].text);
    }
  }

  /** The PNFL as stored: its digits when there are exactly 14 of them,
      otherwise the trimmed original; an empty value stays empty. */
  function CleanPnfl(p: string): string {
    if p == "" then ""
    else
      var digits := Digits(p);
      if |digits| == 14 then digits else Strip(p)
  }

  /** Whenever the stored PNFL is 14 digits, they are the input's
      digits, whether or not the input was reduced to its digits. */
  lemma CleanPnflCases(p: string)
    ensures var r := CleanPnfl(p);
      && (p == "" ==> r == "")
      && (|Digits(p)| == 14 ==> r == Digits(p))
      && (|Digits(p)| != 14 ==> r == Strip(p))
      && (|r| == 14 && AllDigits(r) ==> r == Digits(p))
  {
    if p != "" && |Digits(p)| != 14 {
      DigitsOfStrip(p);
    }
  }

  /** Cleaning a stored PNFL again gives the same value. */
  lemma CleanPnflIdempotent(p: string)
    ensures CleanPnfl(CleanPnfl(p)) == CleanPnfl(p)
  {
    var r := CleanPnfl(p);
    if p != "" && |Digits(p)| != 14 {
      DigitsOfStrip(p);
      StripSpec(p);
      StripSpec(r);
      assert Digits(r) == Digits(p);
    }
  }

  /** A HemisTable object built for the bulk insert, before it has a pk. */
  datatype Draft = Draft(hemisId: string, fio: string, born: string, passport: string,
                         pnfl: string, course: string, studentGroup: string)

  datatype RowOutcome =
    | IdMissing
    | AlreadyKnown
    | FioMissing
    | Accepted(draft: Draft, queued: Option<nat>)

  /** One pass of the loop body over `row`, given the ids seen so far.
      Every value comes from `get_cell_value`, which already strips it,
      so the code's second `str(...).strip()` changes nothing. */
  function ClassifyRow(rs: seq<Register>, row: Row, seen: set<string>): RowOutcome
  {
    var hid := CellValue(row, IdColumn);
    if hid == "" then IdMissing
    else if hid in seen then AlreadyKnown
    else
      var fio := CellValue(row, FioColumn);
      if fio == "" then FioMissing
      else
        var draft := MakeDraft(row, hid, fio);
        Accepted(draft, QueuedRegister(rs, hid, draft.pnfl))
  }

  /** The HemisTable object for an accepted row. */
  function MakeDraft(row: Row, hid: string, fio: string): Draft {
    Draft(hid, fio, CellValue(row, BornColumn), CellValue(row, PassportColumn),
          CleanPnfl(CellValue(row, PnflColumn)), CellValue(row, CourseColumn), CellValue(row, StudentGroupColumn))
  }

  /** The register to activate for a row: the first inactive one with the
      row's ID and PNFL, looked up only for a 14-character PNFL. */
  function QueuedRegister(rs: seq<Register>, hid: string, pnfl: string): Option<nat> {
    if |pnfl| == 14 then
      match FirstRegister(rs, InactiveKeyIs(hid, pnfl))
      case Some(k) => Some(rs[k].id)
      case None => None
    else None
  }

  /** The four outcomes of a row: an empty ID, an ID seen before, an
      empty name, or a draft of the row's cleaned values. A register is
      queued only when the PNFL has 14 characters, and then it is an
      inactive register with that ID and PNFL; when such a register
      exists, one is queued. */
  lemma ClassifyRowCases(rs: seq<Register>, row: Row, seen: set<string>)
    ensures var r := ClassifyRow(rs, row, seen);
      var hid, fio := CellValue(row, IdColumn), CellValue(row, FioColumn);
      && (r.IdMissing? <==> hid == "")
      && (r.AlreadyKnown? <==> hid != "" && hid in seen)
      && (r.FioMissing? <==> hid != "" && hid !in seen && fio == "")
      && (r.Accepted? ==>
            && r.draft.hemisId == hid && r.draft.fio == fio
            && r.draft.pnfl == CleanPnfl(CellValue(row, PnflColumn)))
      && (r.Accepted? && r.queued.Some? ==>
            exists k :: 0 <= k < |rs| && rs[k].id == r.queued.value && !rs[k].isActive && |r.draft.pnfl| == 14
              && rs[k].hemisId == Some(r.draft.hemisId) && rs[k].pnfl == Some(r.draft.pnfl))
      && (r.Accepted? && |r.draft.pnfl| == 14 && FirstRegister(rs, InactiveKeyIs(r.draft.hemisId, r.draft.pnfl)).Some? ==>
            r.queued.Some?)
  {
  }

  /** "Qator {index + 2}: {reason}" */
  function RowError(index: nat, reason: string): string {
    "Qator " + NatToDecimal(index + 2) + ": " + reason
  }

  const IdMissingReason := "ID bo'sh"
  const FioMissingReason := "FIO bo'sh"

  /** What the loop has gathered after some rows. */
  datatype Batch = Batch(drafts: seq<Draft>, queued: seq<nat>, errors: seq<string>, seen: set<string>)

  function Step(b: Batch, rs: seq<Register>, row: Row, index: nat): Batch {
    match ClassifyRow(rs, row, b.seen)
    case IdMissing => b.(errors := b.errors + [RowError(index, IdMissingReason)])
    case AlreadyKnown => b
    case FioMissing => b.(errors := b.errors + [RowError(index, FioMissingReason)])
    case Accepted(d, q) =>
      Batch(b.drafts + [d], b.queued + (if q.Some? then [q.value] else []), b.errors, b.seen + {d.hemisId})
  }

  /** The row loop of `process_excel_simple` over `rows`, starting from
      the ids `seen` already in the table. */
  function Scan(rs: seq<Register>, rows: seq<Row>, seen: set<string>): Batch
    decreases |rows|
  {
    if rows == [] then Batch([], [], [], seen)
    else Step(Scan(rs, rows[..|rows| - 1], seen), rs, rows[|rows| - 1], |rows| - 1)
  }

  function HemisIds(hs: seq<HemisRecord>): set<string> {
    set h | h in hs :: h.hemisId
  }

  function DraftIds(ds: seq<Draft>): set<string> {
    set d | d in ds :: d.hemisId
  }

  // ---------------------------------------------------------------------
  // Properties of the row loop

  /** What one row does to the batch: an accepted row appends its draft,
      whose id was not seen, and adds that id; any other row changes the
      drafts, the queue and the ids seen not at all. */
  lemma StepShape(b: Batch, rs: seq<Register>, row: Row, index: nat)
    ensures var b' := Step(b, rs, row, index);
      match ClassifyRow(rs, row, b.seen)
      case Accepted(d, q) =>
        && b'.drafts == b.drafts + [d] && b'.seen == b.seen + {d.hemisId} && b'.errors == b.errors
        && b'.queued == b.queued + (if q.Some? then [q.value] else [])
        && d.hemisId !in b.seen && d.hemisId != "" && d.fio != ""
      case _ =>
        && b'.drafts == b.drafts && b'.seen == b.seen && b'.queued == b.queued
        && |b'.errors| <= |b.errors| + 1
  {
    ClassifyRowCases(rs, row, b.seen);
  }

  /** The ids seen after the loop are the table's and the accepted rows'. */
  lemma {:induction false} ScanSeen(rs: seq<Register>, rows: seq<Row>, seen: set<string>)
    ensures Scan(rs, rows, seen).seen == seen + DraftIds(Scan(rs, rows, seen).drafts)
    decreases |rows|
  {
    if rows != [] {
      var prefix := rows[..|rows| - 1];
      ScanSeen(rs, prefix, seen);
      var b := Scan(rs, prefix, seen);
      StepShape(b, rs, rows[|rows| - 1], |rows| - 1);
      match ClassifyRow(rs, rows[|rows| - 1], b.seen)
      case Accepted(d, q) =>
        assert DraftIds(b.drafts + [d]) == DraftIds(b.drafts) + {d.hemisId};
      case _ =>
    }
  }

  /** Every draft has an ID and a name, and its ID is new to `seen` and
      to the other drafts. */
  predicate FreshDrafts(ds: seq<Draft>, seen: set<string>) {
    && (forall i :: 0 <= i < |ds| ==> ds[i].hemisId != "" && ds[i].fio != "" && ds[i].hemisId !in seen)
    && (forall i, j :: 0 <= i < j < |ds| ==> ds[i].hemisId != ds[j].hemisId)
  }

  /** Accepted rows have an ID and a name, and their IDs are new to the
      table and to each other. */
  lemma {:induction false} ScanAcceptsFreshRows(rs: seq<Register>, rows: seq<Row>, seen: set<string>)
    ensures FreshDrafts(Scan(rs, rows, seen).drafts, seen)
    decreases |rows|
  {
    if rows != [] {
      var prefix := rows[..|rows| - 1];
      ScanAcceptsFreshRows(rs, prefix, seen);
      ScanSeen(rs, prefix, seen);
      StepKeepsFresh(Scan(rs, prefix, seen), rs, rows[|rows| - 1], |rows| - 1, seen);
    }
  }

  lemma StepKeepsFresh(b: Batch, rs: seq<Register>, row: Row, index: nat, seen: set<string>)
    requires FreshDrafts(b.drafts, seen) && b.seen == seen + DraftIds(b.drafts)
    ensures FreshDrafts(Step(b, rs, row, index).drafts, seen)
  {
    StepShape(b, rs, row, index);
    var c := ClassifyRow(rs, row, b.seen);
    if c.Accepted? {
      var ds, d := b.drafts, c.draft;
      forall i | 0 <= i < |ds| ensures ds[i].hemisId != d.hemisId {
        assert ds[i] in ds;
      }
      var ds' := ds + [d];
      assert Step(b, rs, row, index).drafts == ds';
      assert forall i :: 0 <= i < |ds| ==> ds'[i] == ds[i];
    }
  }

  /** No row yields both a draft and an error. */
  lemma {:induction false} ScanCountsRows(rs: seq<Register>, rows: seq<Row>, seen: set<string>)
    ensures |Scan(rs, rows, seen).drafts| + |Scan(rs, rows, seen).errors| <= |rows|
    decreases |rows|
  {
    if rows != [] {
      var prefix := rows[..|rows| - 1];
      ScanCountsRows(rs, prefix, seen);
      StepShape(Scan(rs, prefix, seen), rs, rows[|rows| - 1], |rows| - 1);
    }
  }

  /** Every row with an empty ID is reported as "Qator n: ID bo'sh", with
      n its spreadsheet line (the index plus two). */
  lemma {:induction false} ScanReportsMissingId(rs: seq<Register>, rows: seq<Row>, seen: set<string>, k: nat)
    requires k < |rows| && CellValue(rows[k], IdColumn) == ""
    ensures RowError(k, IdMissingReason) in Scan(rs, rows, seen).errors
    decreases |rows|
  {
    if k < |rows| - 1 {
      var prefix := rows[..|rows| - 1];
      assert prefix[k] == rows[k];
      ScanReportsMissingId(rs, prefix, seen, k);
    }
  }

  /** A row with an ID not seen before and an empty name is reported as
      "Qator n: FIO bo'sh". */
  lemma {:induction false} ScanReportsMissingFio(rs: seq<Register>, rows: seq<Row>, seen: set<string>, k: nat)
    requires k < |rows|
    requires CellValue(rows[k], IdColumn) != "" && CellValue(rows[k], FioColumn) == ""
    requires CellValue(rows[k], IdColumn) !in Scan(rs, rows[..k], seen).seen
    ensures RowError(k, FioMissingReason) in Scan(rs, rows, seen).errors
    decreases |rows|
  {
    if k < |rows| - 1 {
      var prefix := rows[..|rows| - 1];
      assert prefix[k] == rows[k];
      assert prefix[..k] == rows[..k];
      ScanReportsMissingFio(rs, prefix, seen, k);
    } else {
      assert rows[..|rows| - 1] == rows[..k];
    }
  }

  /** A row with both an ID and a name. */
  predicate Complete(row: Row) {
    CellValue(row, IdColumn) != "" && CellValue(row, FioColumn) != ""
  }

  /** Every complete row of `rows` has its ID in `ids`. */
  predicate SeesComplete(rows: seq<Row>, ids: set<string>) {
    forall k :: 0 <= k < |rows| && Complete(rows[k]) ==> CellValue(rows[k], IdColumn) in ids
  }

  /** Every row whose ID and name are both present ends up among the ids
      seen: stored already, or accepted by this batch. */
  lemma {:induction false} ScanSeesCompleteRows(rs: seq<Register>, rows: seq<Row>, seen: set<string>)
    ensures var b := Scan(rs, rows, seen);
      seen <= b.seen && SeesComplete(rows, b.seen)
    decreases |rows|
  {
    if rows != [] {
      var prefix := rows[..|rows| - 1];
      var last := rows[|rows| - 1];
      ScanSeesCompleteRows(rs, prefix, seen);
      var b := Scan(rs, prefix, seen);
      StepSeesRow(b, rs, last, |rows| - 1);
      assert Scan(rs, rows, seen) == Step(b, rs, last, |rows| - 1);
      assert rows == prefix + [last];
      SeesCompleteSnoc(prefix, last, b.seen, Scan(rs, rows, seen).seen);
    }
  }

  lemma SeesCompleteSnoc(rows: seq<Row>, last: Row, ids: set<string>, ids': set<string>)
    requires SeesComplete(rows, ids) && ids <= ids'
    requires Complete(last) ==> CellValue(last, IdColumn) in ids'
    ensures SeesComplete(rows + [last], ids')
  {
    var rows' := rows + [last];
    forall k | 0 <= k < |rows'| && Complete(rows'[k]) ensures CellValue(rows'[k], IdColumn) in ids' {
      if k < |rows| {
        assert rows'[k] == rows[k];
      }
    }
  }

  /** One row keeps the ids seen, and a complete row's ID is among them
      afterwards. */
  lemma StepSeesRow(b: Batch, rs: seq<Register>, row: Row, index: nat)
    ensures var b' := Step(b, rs, row, index);
      b.seen <= b'.seen && (Complete(row) ==> CellValue(row, IdColumn) in b'.seen)
  {
    StepShape(b, rs, row, index);
    ClassifyRowCases(rs, row, b.seen);
  }

  /** When every complete row's ID is already known, nothing is accepted. */
  lemma {:induction false} ScanOfKnownRowsAcceptsNothing(rs: seq<Register>, rows: seq<Row>, seen: set<string>)
    requires SeesComplete(rows, seen)
    ensures Scan(rs, rows, seen).drafts == [] && Scan(rs, rows, seen).seen == seen
    decreases |rows|
  {
    if rows != [] {
      var prefix := rows[..|rows| - 1];
      forall k | 0 <= k < |prefix| ensures prefix[k] == rows[k] { }
      ScanOfKnownRowsAcceptsNothing(rs, prefix, seen);
    }
  }

  /** `q` is the pk of an inactive register whose ID and PNFL are those
      of one of `drafts`, a draft whose PNFL has 14 characters. */
  ghost predicate QueuedFor(rs: seq<Register>, drafts: seq<Draft>, q: nat) {
    exists d, k :: d in drafts && 0 <= k < |rs| && rs[k].id == q && !rs[k].isActive
      && |d.pnfl| == 14 && rs[k].hemisId == Some(d.hemisId) && rs[k].pnfl == Some(d.pnfl)
  }

  /** A register is queued for activation only for an accepted row whose
      stored PNFL has 14 characters, and only when it is inactive and has
      that ID and PNFL. */
  lemma {:induction false} ScanQueuesMatchingInactive(rs: seq<Register>, rows: seq<Row>, seen: set<string>)
    ensures QueueMatches(rs, Scan(rs, rows, seen))
    decreases |rows|
  {
    if rows != [] {
      var prefix := rows[..|rows| - 1];
      ScanQueuesMatchingInactive(rs, prefix, seen);
      StepKeepsQueueMatches(Scan(rs, prefix, seen), rs, rows[|rows| - 1], |rows| - 1);
    }
  }

  ghost predicate QueueMatches(rs: seq<Register>, b: Batch) {
    forall q :: q in b.queued ==> QueuedFor(rs, b.drafts, q)
  }

  lemma StepKeepsQueueMatches(b: Batch, rs: seq<Register>, row: Row, index: nat)
    requires QueueMatches(rs, b)
    ensures QueueMatches(rs, Step(b, rs, row, index))
  {
    var b' := Step(b, rs, row, index);
    StepShape(b, rs, row, index);
    ClassifyRowCases(rs, row, b.seen);
    var c := ClassifyRow(rs, row, b.seen);
    if c.Accepted? {
      var d := c.draft;
      assert d in b'.drafts;
      forall x | x in b'.queued ensures QueuedFor(rs, b'.drafts, x) {
        if x in b.queued {
          var d0, k0 :| d0 in b.drafts && 0 <= k0 < |rs| && rs[k0].id == x && !rs[k0].isActive
            && |d0.pnfl| == 14 && rs[k0].hemisId == Some(d0.hemisId) && rs[k0].pnfl == Some(d0.pnfl);
          assert d0 in b'.drafts;
        } else {
          assert c.queued == Some(x);
          var k :| 0 <= k < |rs| && rs[k].id == x && !rs[k].isActive && |d.pnfl| == 14
            && rs[k].hemisId == Some(d.hemisId) && rs[k].pnfl == Some(d.pnfl);
        }
      }
    } else {
      forall x | x in b'.queued ensures QueuedFor(rs, b'.drafts, x) {
        assert x in b.queued;
      }
    }
  }

  // ---------------------------------------------------------------------
  // Persisting the batch

  /** The rows `bulk_create` inserts: one per draft, pks from `pk` on,
      not linked to a register and in no group. */
  function NewRows(ds: seq<Draft>, pk: nat): (hs: seq<HemisRecord>)
    ensures |hs| == |ds|
    ensures forall i :: 0 <= i < |ds| ==>
      var d := ds[i];
      hs[i] == HemisRecord(pk + i, d.hemisId, d.fio, d.born, d.passport, d.pnfl, d.course, d.studentGroup, None, {})
  {
    seq(|ds|, i requires 0 <= i < |ds| =>
      HemisRecord(pk + i, ds[i].hemisId, ds[i].fio, ds[i].born, ds[i].passport, ds[i].pnfl,
                  ds[i].course, ds[i].studentGroup, None, {}))
  }

  /** One register after the update `is_active=True` on the pks in `ids`. */
  function Activated(r: Register, ids: set<nat>): Register {
    if r.id in ids then r.(isActive := true) else r
  }

  /** The queryset update `is_active=True` on the registers whose pk is in `ids`. */
  function Activate(rs: seq<Register>, ids: set<nat>): (rs': seq<Register>)
    ensures |rs'| == |rs|
    decreases |rs|
  {
    if rs == [] then [] else Activate(rs[..|rs| - 1], ids) + [Activated(rs[|rs| - 1], ids)]
  }

  /** Each register is updated in its own place. */
  lemma {:induction false} ActivateAt(rs: seq<Register>, ids: set<nat>)
    ensures forall k :: 0 <= k < |rs| ==> Activate(rs, ids)[k] == Activated(rs[k], ids)
    decreases |rs|
  {
    if rs != [] {
      ActivateAt(rs[..|rs| - 1], ids);
    }
  }

  /** The number of registers whose pk is in `ids`: what the update reports. */
  function CountIn(rs: seq<Register>, ids: set<nat>): (n: nat)
    ensures n <= |rs|
    decreases |rs|
  {
    if rs == [] then 0
    else CountIn(rs[..|rs| - 1], ids) + (if rs[|rs| - 1].id in ids then 1 else 0)
  }

  datatype Outcome = Outcome(db: Db, created: nat, activated: nat, errors: seq<string>)

  /** `process_excel_simple` on the store `db`. */
  function Ingest(db: Db, rows: seq<Row>): Outcome {
    var b := Scan(db.registers, rows, HemisIds(db.hemis));
    var queued := IdSet(b.queued);
    Outcome(
      Db(db.groups, Activate(db.registers, queued), db.hemis + NewRows(b.drafts, NextPk(db.hemis, HemisPk))),
      |b.drafts|,
      if b.queued == [] then 0 else CountIn(db.registers, queued),
      b.errors)
  }

  lemma HemisIdsAppend(hs: seq<HemisRecord>, ds: seq<Draft>, pk: nat)
    ensures HemisIds(hs + NewRows(ds, pk)) == HemisIds(hs) + DraftIds(ds)
  {
    var ns := NewRows(ds, pk);
    forall x | x in DraftIds(ds) ensures x in HemisIds(hs + ns) {
      var i :| 0 <= i < |ds| && ds[i].hemisId == x;
      assert (hs + ns)[|hs| + i] == ns[i];
    }
    forall x | x in HemisIds(hs + ns) ensures x in HemisIds(hs) + DraftIds(ds) {
      var h :| h in hs + ns && h.hemisId == x;
      if h !in hs {
        var i :| 0 <= i < |ns| && ns[i] == h;
        assert ds[i] in ds;
      }
    }
  }

  /** An update on no pks leaves the registers as they were. */
  lemma {:induction false} ActivateNone(rs: seq<Register>, ids: set<nat>)
    requires ids == {}
    ensures Activate(rs, ids) == rs
    decreases |rs|
  {
    if rs != [] {
      ActivateNone(rs[..|rs| - 1], ids);
      assert rs == rs[..|rs| - 1] + [rs[|rs| - 1]];
    }
  }

  /** Activation changes only `is_active`, so the registers stay valid
      and keep their pks. */
  lemma ActivateKeepsValid(rs: seq<Register>, ids: set<nat>, groupPks: set<nat>)
    requires RegistersValid(rs, groupPks)
    ensures var rs' := Activate(rs, ids);
      && RegistersValid(rs', groupPks) && RegisterPks(rs') == RegisterPks(rs)
      && forall k :: 0 <= k < |rs| ==> rs'[k].(isActive := rs[k].isActive) == rs[k]
  {
    var rs' := Activate(rs, ids);
    ActivateAt(rs, ids);
    forall k | 0 <= k < |rs| ensures rs'[k].(isActive := rs[k].isActive) == rs[k] {
      assert rs'[k] == Activated(rs[k], ids);
    }
    ActiveFlagOnlyKeepsValid(rs, rs', groupPks);
  }

  /** Registers that differ only in `is_active` are valid together and
      have the same pks. */
  lemma ActiveFlagOnlyKeepsValid(rs: seq<Register>, rs': seq<Register>, groupPks: set<nat>)
    requires RegistersValid(rs, groupPks) && |rs'| == |rs|
    requires forall k :: 0 <= k < |rs| ==> rs'[k].(isActive := rs[k].isActive) == rs[k]
    ensures RegistersValid(rs', groupPks) && RegisterPks(rs') == RegisterPks(rs)
  {
    forall x | x in RegisterPks(rs) ensures x in RegisterPks(rs') {
      var k :| 0 <= k < |rs| && rs[k].id == x;
      assert rs'[k].id == x;
    }
  }

  /** Appending the new rows for fresh drafts keeps pks increasing,
      links one-to-one and student IDs unique. */
  lemma AppendKeepsValid(hs: seq<HemisRecord>, ds: seq<Draft>, registerPks: set<nat>, groupPks: set<nat>)
    requires HemisValid(hs, registerPks, groupPks)
    requires FreshDrafts(ds, HemisIds(hs))
    ensures var hs' := hs + NewRows(ds, NextPk(hs, HemisPk));
      HemisValid(hs', registerPks, groupPks)
  {
    var ns := NewRows(ds, NextPk(hs, HemisPk));
    var hs' := hs + ns;
    forall i, j | 0 <= i < j < |hs'|
      ensures hs'[i].id < hs'[j].id && (hs'[i].register.Some? ==> hs'[i].register != hs'[j].register)
      ensures hs'[i].hemisId != hs'[j].hemisId
    {
      if j >= |hs| {
        NewRowAt(hs, ds, ns, j - |hs|);
        if i < |hs| {
          assert hs'[i] == hs[i];
          assert hs[i] in hs;
        } else {
          NewRowAt(hs, ds, ns, i - |hs|);
        }
      } else {
        assert hs'[i] == hs[i] && hs'[j] == hs[j];
      }
    }
    forall i | 0 <= i < |hs'| ensures
      (hs'[i].register.Some? ==> hs'[i].register.value in registerPks) && hs'[i].telegramGroups <= groupPks
    {
      if i >= |hs| {
        NewRowAt(hs, ds, ns, i - |hs|);
      } else {
        assert hs'[i] == hs[i];
      }
    }
  }

  /** The `n`-th new row, seen at its place after the old ones. */
  lemma NewRowAt(hs: seq<HemisRecord>, ds: seq<Draft>, ns: seq<HemisRecord>, n: nat)
    requires ns == NewRows(ds, NextPk(hs, HemisPk)) && n < |ds|
    ensures (hs + ns)[|hs| + n] == ns[n]
    ensures ns[n].hemisId == ds[n].hemisId && ns[n].register.None? && ns[n].telegramGroups == {}
    ensures forall k :: 0 <= k < |hs| ==> hs[k].id < ns[n].id
    ensures forall m :: 0 <= m < n ==> ns[m].id < ns[n].id
  {
  }

  /** The import keeps the store valid (student IDs included), creates
      exactly the accepted rows, and changes registers only by activating
      them. */
  lemma IngestKeepsValid(db: Db, rows: seq<Row>)
    requires DbValid(db)
    ensures var o := Ingest(db, rows);
      && DbValid(o.db)
      && o.db.groups == db.groups
      && |o.db.hemis| == |db.hemis| + o.created
      && o.db.hemis[..|db.hemis|] == db.hemis
      && |o.db.registers| == |db.registers|
      && (forall k :: 0 <= k < |db.registers| ==>
            o.db.registers[k].(isActive := db.registers[k].isActive) == db.registers[k])
  {
    var seen := HemisIds(db.hemis);
    var b := Scan(db.registers, rows, seen);
    ScanAcceptsFreshRows(db.registers, rows, seen);
    var queued := IdSet(b.queued);
    ActivateKeepsValid(db.registers, queued, GroupPks(db.groups));
    AppendKeepsValid(db.hemis, b.drafts, RegisterPks(db.registers), GroupPks(db.groups));
    var hs := db.hemis + NewRows(b.drafts, NextPk(db.hemis, HemisPk));
    assert Ingest(db, rows).db == Db(db.groups, Activate(db.registers, queued), hs);
    assert hs[..|db.hemis|] == db.hemis;
  }

  /** Importing the same sheet again creates nothing: every row with an ID
      and a name is then known. */
  lemma IngestTwiceCreatesNothing(db: Db, rows: seq<Row>)
    ensures Ingest(Ingest(db, rows).db, rows).created == 0
  {
    var seen := HemisIds(db.hemis);
    var b := Scan(db.registers, rows, seen);
    ScanSeesCompleteRows(db.registers, rows, seen);
    ScanSeen(db.registers, rows, seen);
    var db' := Ingest(db, rows).db;
    HemisIdsAppend(db.hemis, b.drafts, NextPk(db.hemis, HemisPk));
    ScanOfKnownRowsAcceptsNothing(db'.registers, rows, HemisIds(db'.hemis));
  }

  // ---------------------------------------------------------------------
  // The dashboard figures

  datatype Statistics = Statistics(total: nat, registered: nat, inGroup: nat, unregistered: int, notInGroup: int)

  function CountLinked(hs: seq<HemisRecord>): nat
    decreases |hs|
  {
    if hs == [] then 0 else CountLinked(hs[..|hs| - 1]) + (if hs[|hs| - 1].register.Some? then 1 else 0)
  }

  function CountInGroup(hs: seq<HemisRecord>): nat
    decreases |hs|
  {
    if hs == [] then 0 else CountInGroup(hs[..|hs| - 1]) + (if hs[|hs| - 1].telegramGroups != {} then 1 else 0)
  }

  function CountUnlinked(hs: seq<HemisRecord>): nat
    decreases |hs|
  {
    if hs == [] then 0 else CountUnlinked(hs[..|hs| - 1]) + (if hs[|hs| - 1].register.None? then 1 else 0)
  }

  function CountNotInGroup(hs: seq<HemisRecord>): nat
    decreases |hs|
  {
    if hs == [] then 0 else CountNotInGroup(hs[..|hs| - 1]) + (if hs[|hs| - 1].telegramGroups == {} then 1 else 0)
  }

  /** `get_statistics`: the two complements are computed as differences. */
  function GetStatistics(hs: seq<HemisRecord>): Statistics {
    var total, registered, inGroup := |hs|, CountLinked(hs), CountInGroup(hs);
    Statistics(total, registered, inGroup, total - registered, total - inGroup)
  }

  /** The differences are the counts of unlinked rows and of rows in no
      group, so neither is negative and the parts add up to the total. */
  lemma {:induction false} StatisticsPartition(hs: seq<HemisRecord>)
    ensures var s := GetStatistics(hs);
      && s.unregistered == CountUnlinked(hs) && s.notInGroup == CountNotInGroup(hs)
      && 0 <= s.registered <= s.total && 0 <= s.inGroup <= s.total
    decreases |hs|
  {
    if hs != [] {
      StatisticsPartition(hs[..|hs| - 1]);
    }
  }

  lemma {:induction false} CountsAppendNewRows(hs: seq<HemisRecord>, ns: seq<HemisRecord>)
    requires forall i :: 0 <= i < |ns| ==> ns[i].register.None? && ns[i].telegramGroups == {}
    ensures CountLinked(hs + ns) == CountLinked(hs) && CountInGroup(hs + ns) == CountInGroup(hs)
    decreases |ns|
  {
    if ns == [] {
      assert hs + ns == hs;
    } else {
      var ns0 := ns[..|ns| - 1];
      assert (hs + ns)[..|hs + ns| - 1] == hs + ns0;
      assert (hs + ns)[|hs + ns| - 1] == ns[|ns| - 1];
      CountsAppendNewRows(hs, ns0);
    }
  }

  /** After an import the table has `created` more rows, all of them
      unregistered and in no group. */
  lemma IngestStatistics(db: Db, rows: seq<Row>)
    ensures var o := Ingest(db, rows);
      var before, after := GetStatistics(db.hemis), GetStatistics(o.db.hemis);
      && after.total == before.total + o.created
      && after.registered == before.registered && after.inGroup == before.inGroup
      && after.unregistered == before.unregistered + o.created
  {
    var b := Scan(db.registers, rows, HemisIds(db.hemis));
    CountsAppendNewRows(db.hemis, NewRows(b.drafts, NextPk(db.hemis, HemisPk)));
  }

  // ---------------------------------------------------------------------
  // The view's routine on the store

  /** The row loop of `process_excel_simple`. */
  method ScanRows(rs: seq<Register>, rows: seq<Row>, existing: set<string>) returns (b: Batch)
    ensures b == Scan(rs, rows, existing)
  {
    var drafts: seq<Draft> := [];
    var queued: seq<nat> := [];
    var errors: seq<string> := [];
    var seen := existing;
    var i := 0;
    while i < |rows|
      invariant 0 <= i <= |rows|
      invariant Scan(rs, rows[..i], existing) == Batch(drafts, queued, errors, seen)
    {
      ghost var before := Batch(drafts, queued, errors, seen);
      assert rows[..i + 1][..i] == rows[..i];
      assert Scan(rs, rows[..i + 1], existing) == Step(before, rs, rows[i], i);
      var row := rows[i];
      var hid := CellValue(row, IdColumn);
      if hid == "" {
        errors := errors + [RowError(i, IdMissingReason)];
      } else if hid !in seen {
        var fio := CellValue(row, FioColumn);
        if fio == "" {
          errors := errors + [RowError(i, FioMissingReason)];
        } else {
          var pnfl := CleanPnfl(CellValue(row, PnflColumn));
          var draft := Draft(hid, fio, CellValue(row, BornColumn), CellValue(row, PassportColumn),
                             pnfl, CellValue(row, CourseColumn), CellValue(row, StudentGroupColumn));
          drafts := drafts + [draft];
          if |pnfl| == 14 {
            var found := FirstRegister(rs, InactiveKeyIs(hid, pnfl));
            if found.Some? {
              queued := queued + [rs[found.value].id];
            }
          }
          seen := seen + {hid};
        }
      }
      i := i + 1;
    }
    assert rows[..|rows|] == rows;
    b := Batch(drafts, queued, errors, seen);
  }

  /** The update `Register.objects.filter(id__in=ids).update(is_active=True)`:
      the new registers and the number of rows it matched. */
  method ActivateRegisters(rs: seq<Register>, ids: set<nat>) returns (updated: seq<Register>, count: nat)
    ensures updated == Activate(rs, ids) && count == CountIn(rs, ids)
  {
    updated, count := [], 0;
    for k := 0 to |rs|
      invariant updated == Activate(rs[..k], ids)
      invariant count == CountIn(rs[..k], ids)
    {
      assert rs[..k + 1][..k] == rs[..k];
      if rs[k].id in ids {
        updated := updated + [rs[k].(isActive := true)];
        count := count + 1;
      } else {
        updated := updated + [rs[k]];
      }
    }
    assert rs[..|rs|] == rs;
  }

  /** `process_excel_simple`: scans the rows, inserts the accepted ones in
      one batch and activates the queued registers in one update. */
  method ProcessExcelSimple(st: Store, rows: seq<Row>) returns (created: nat, activated: nat, errors: seq<string>)
    modifies st
    ensures var o := Ingest(old(st.State()), rows);
      st.State() == o.db && created == o.created && activated == o.activated && errors == o.errors
    ensures old(st.Valid()) ==> st.Valid()
  {
    if st.Valid() {
      IngestKeepsValid(st.State(), rows);
    }
    var existing := set h | h in st.hemis :: h.hemisId;
    var b := ScanRows(st.registers, rows, existing);
    st.hemis := st.hemis + NewRows(b.drafts, NextPk(st.hemis, HemisPk));
    created := |b.drafts|;
    errors := b.errors;
    activated := 0;
    var ids := IdSet(b.queued);
    if b.queued != [] {
      st.registers, activated := ActivateRegisters(st.registers, ids);
    } else {
      ActivateNone(st.registers, ids);
    }
  }
}
