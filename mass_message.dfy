/** The mass-message view of core/views/tg_group.py: one text message, or
    a run of files with the text as the first file's caption, sent to each
    selected active Telegram group through the Bot API.

    The Bot API is not modelled: what it answers to the n-th request of a
    run (the `getMe` probe is request 0) is the parameter `reply`, and
    what the model sends is the trace of `Request`s, whose multipart
    bodies module Multipart describes. */
module MassMessage {
  import opened Wrappers
  import opened Text
  import opened Utf8
  import opened Entities
  import opened Multipart

  // ---------------------------------------------------------------------
  // Requests and replies

  /** A Bot API call: method name, text fields in order, and at most one
      file. */
  datatype Request = Request(apiMethod: string, fields: seq<(string, string)>, file: Option<FilePart>)

  /** The part of a Bot API answer the view reads: `ok`, and the
      `description` and `error` keys when present. */
  datatype Reply = Reply(ok: bool, description: Option<string>, error: Option<string>)

  /** An uploaded file: its name, its bytes, the content type the client
      declared ("" for none) and what `mimetypes.guess_type` makes of the
      name. */
  datatype Upload = Upload(name: string, content: bytes, declaredType: string, guessedType: Option<string>)

  const DefaultContentType := "application/octet-stream"
  const UnknownError := "Noma'lum xatolik"

  predicate HasPrefix(p: string, s: string) {
    |p| <= |s| && s[..|p|] == p
  }

  /** `get_telegram_method`: the Bot API method and file field for a
      content type, chosen by its top-level type. */
  function GetTelegramMethod(contentType: string): (string, string) {
    if HasPrefix("image/", contentType) then ("sendPhoto", "photo")
    else if HasPrefix("video/", contentType) then ("sendVideo", "video")
    else if HasPrefix("audio/", contentType) then ("sendAudio", "audio")
    else ("sendDocument", "document")
  }

  /** Each top-level type selects its method, and anything else is sent
      as a document. */
  lemma TelegramMethodByType(contentType: string)
    ensures var r := GetTelegramMethod(contentType);
      && (r == ("sendPhoto", "photo") <==> HasPrefix("image/", contentType))
      && (r == ("sendVideo", "video") <==> HasPrefix("video/", contentType))
      && (r == ("sendAudio", "audio") <==> HasPrefix("audio/", contentType))
      && (r == ("sendDocument", "document") <==>
            !HasPrefix("image/", contentType) && !HasPrefix("video/", contentType) && !HasPrefix("audio/", contentType))
  {
  }

  /** The declared content type, else the guessed one, else the octet
      stream default. */
  function ContentType(u: Upload): string {
    if u.declaredType != "" then u.declaredType
    else if u.guessedType.Some? && u.guessedType.value != "" then u.guessedType.value
    else DefaultContentType
  }

  /** The content type is never empty: the declared type wins, then the
      guess, and the default stands in only when neither is given. */
  lemma ContentTypeFallback(u: Upload)
    ensures var t := ContentType(u);
      && t != ""
      && (u.declaredType != "" ==> t == u.declaredType)
      && (u.declaredType == "" && u.guessedType.Some? && u.guessedType.value != "" ==> t == u.guessedType.value)
      && (u.declaredType == "" && (u.guessedType.None? || u.guessedType.value == "") ==> t == DefaultContentType)
  {
  }

  /** `result.get('description', result.get('error', ...))`. */
  function ErrorDetail(r: Reply): (d: string)
    ensures r.description.Some? ==> d == r.description.value
    ensures r.description.None? && r.error.Some? ==> d == r.error.value
    ensures r.description.None? && r.error.None? ==> d == UnknownError
  {
    match r.description
    case Some(d) => d
    case None => match r.error case Some(e) => e case None => UnknownError
  }

  predicate HasField(r: Request, key: string) {
    exists k :: 0 <= k < |r.fields| && r.fields[k].0 == key
  }

  /** The text fields of the `i`-th file's request: the chat, and the
      caption on the first file when there is text. */
  function FileFields(gid: int, text: string, i: nat): seq<(string, string)> {
    [("chat_id", IntToDecimal(gid))] + if i == 0 && text != "" then [("caption", text)] else []
  }

  /** The upload as a file part, under the field its content type
      selects. */
  function UploadPart(u: Upload): FilePart {
    FilePart(GetTelegramMethod(ContentType(u)).1, u.name, u.content, ContentType(u))
  }

  /** The `i`-th file's request to chat `gid`; the message text rides as
      the caption of the first file only. */
  function FileRequest(gid: int, text: string, uploads: seq<Upload>, i: nat): Request
    requires i < |uploads|
  {
    Request(GetTelegramMethod(ContentType(uploads[i])).0, FileFields(gid, text, i), Some(UploadPart(uploads[i])))
  }

  /** A file request is addressed to the chat, carries the caption
      exactly when it is the first file and there is text, and sends the
      upload's bytes under the method and field its content type
      selects. */
  lemma FileRequestShape(gid: int, text: string, uploads: seq<Upload>, i: nat)
    requires i < |uploads|
    ensures var r := FileRequest(gid, text, uploads, i);
      && r.fields != [] && r.fields[0] == ("chat_id", IntToDecimal(gid))
      && (HasField(r, "caption") <==> i == 0 && text != "")
      && (i == 0 && text != "" ==> r.fields == [("chat_id", IntToDecimal(gid)), ("caption", text)])
      && r.file.Some? && r.file.value.content == uploads[i].content && r.file.value.fileName == uploads[i].name
      && (r.apiMethod, r.file.value.fieldName) == GetTelegramMethod(r.file.value.contentType)
      && r.file.value.contentType == ContentType(uploads[i])
  {
    var r := FileRequest(gid, text, uploads, i);
    assert r.fields == FileFields(gid, text, i);
    assert "chat_id" != "caption" by { assert "chat_id"[1] != "caption"[1]; }
    if i == 0 && text != "" {
      assert r.fields[1].0 == "caption";
    }
  }

  /** Every request of a file run is addressed to the chat. */
  lemma FileRequestsAddressed(gid: int, text: string, uploads: seq<Upload>, n: nat)
    requires n <= |uploads|
    ensures forall i :: 0 <= i < n ==>
      FileRequests(gid, text, uploads, n)[i].fields != []
      && FileRequests(gid, text, uploads, n)[i].fields[0] == ("chat_id", IntToDecimal(gid))
  {
    FileRequestsInOrder(gid, text, uploads, n);
    forall i | 0 <= i < n
      ensures FileRequests(gid, text, uploads, n)[i].fields != []
        && FileRequests(gid, text, uploads, n)[i].fields[0] == ("chat_id", IntToDecimal(gid))
    {
      FileRequestShape(gid, text, uploads, i);
    }
  }

  /** The requests for the first `n` files, in order. */
  function FileRequests(gid: int, text: string, uploads: seq<Upload>, n: nat): (rs: seq<Request>)
    requires n <= |uploads|
    ensures |rs| == n
  {
    if n == 0 then [] else FileRequests(gid, text, uploads, n - 1) + [FileRequest(gid, text, uploads, n - 1)]
  }

  /** The run holds the files' requests in file order. */
  lemma {:induction false} FileRequestsInOrder(gid: int, text: string, uploads: seq<Upload>, n: nat)
    requires n <= |uploads|
    ensures forall i :: 0 <= i < n ==> FileRequests(gid, text, uploads, n)[i] == FileRequest(gid, text, uploads, i)
    decreases n
  {
    if n > 0 {
      FileRequestsInOrder(gid, text, uploads, n - 1);
    }
  }

  /** The plain-text request, formatted as HTML. */
  function TextRequest(gid: int, text: string): Request {
    Request("sendMessage", [("chat_id", IntToDecimal(gid)), ("text", text), ("parse_mode", "HTML")], None)
  }

  const GetMe := Request("getMe", [], None)

  /** The `j`-th reply counted from `k` is ok. */
  predicate OkAt(reply: nat -> Reply, k: nat, j: nat) {
    reply(k + j).ok
  }

  /** The first of the `n` replies numbered from `k` that is not ok. */
  function FirstFailure(reply: nat -> Reply, k: nat, n: nat): (r: Option<nat>)
    ensures r.Some? ==> r.value < n && !OkAt(reply, k, r.value)
    ensures r.Some? ==> forall j: nat :: j < r.value ==> OkAt(reply, k, j)
    ensures r.None? <==> forall j: nat :: j < n ==> OkAt(reply, k, j)
  {
    if n == 0 then None
    else match FirstFailure(reply, k, n - 1)
      case Some(i) => Some(i)
      case None => if reply(k + n - 1).ok then None else Some(n - 1)
  }

  // ---------------------------------------------------------------------
  // One group

  const FileError := ": Fayl yuborishda xatolik: "
  const TextError := ": Xabar yuborishda xatolik: "

  function FileFailure(name: string, r: Reply): string {
    name + FileError + ErrorDetail(r)
  }

  function TextFailure(name: string, r: Reply): string {
    name + TextError + ErrorDetail(r)
  }

  function NotFound(gid: int): string {
    "Guruh topilmadi: " + IntToDecimal(gid)
  }

  /** Every reply the group's sends depend on is ok: all files, or the
      one text message. */
  predicate AllSendsOk(reply: nat -> Reply, k: nat, text: string, uploads: seq<Upload>) {
    if uploads != [] then forall j: nat :: j < |uploads| ==> OkAt(reply, k, j)
    else text != "" ==> reply(k).ok
  }

  /** The file sends to a found group named `name`: every file up to
      the first one refused. */
  function FilesOutcome(name: string, gid: int, text: string, uploads: seq<Upload>,
                        reply: nat -> Reply, k: nat): (Option<string>, seq<Request>)
    requires uploads != []
  {
    match FirstFailure(reply, k, |uploads|)
    case None => (None, FileRequests(gid, text, uploads, |uploads|))
    case Some(i) => (Some(FileFailure(name, reply(k + i))), FileRequests(gid, text, uploads, i + 1))
  }

  /** The file sends succeed exactly when every file is accepted; at
      least one and at most all of the files' requests go out, in order
      from the first. */
  lemma FilesOutcomeCases(name: string, gid: int, text: string, uploads: seq<Upload>,
                          reply: nat -> Reply, k: nat)
    requires uploads != []
    ensures var r := FilesOutcome(name, gid, text, uploads, reply, k);
      && (r.0.None? <==> forall j: nat :: j < |uploads| ==> OkAt(reply, k, j))
      && 1 <= |r.1| <= |uploads|
      && r.1 == FileRequests(gid, text, uploads, |r.1|)
  {
  }

  /** What sending to group `gid` gives, its requests numbered from `k`:
      the error line, or None on success, and the requests sent. */
  function GroupOutcome(gs: seq<TelegramGroup>, gid: int, text: string, uploads: seq<Upload>,
                        reply: nat -> Reply, k: nat): (r: (Option<string>, seq<Request>))
    ensures r.0.None? <==> FirstGroup(gs, ActiveGroupIdIs(gid)).Some? && AllSendsOk(reply, k, text, uploads)
    ensures FirstGroup(gs, ActiveGroupIdIs(gid)).None? ==> r == (Some(NotFound(gid)), [])
    ensures uploads != [] ==> |r.1| <= |uploads|
    ensures uploads == [] ==> |r.1| <= 1
  {
    match FirstGroup(gs, ActiveGroupIdIs(gid))
    case None => (Some(NotFound(gid)), [])
    case Some(p) =>
      var name := gs[p].groupName;
      if uploads != [] then
        FilesOutcomeCases(name, gid, text, uploads, reply, k);
        FilesOutcome(name, gid, text, uploads, reply, k)
      else if text != "" then
        if reply(k).ok then (None, [TextRequest(gid, text)])
        else (Some(TextFailure(name, reply(k))), [TextRequest(gid, text)])
      else (None, [])
  }

  /** Every request sent for group `gid` is addressed to its chat. */
  lemma GroupRequestsAddressed(gs: seq<TelegramGroup>, gid: int, text: string, uploads: seq<Upload>,
                               reply: nat -> Reply, k: nat)
    ensures var reqs := GroupOutcome(gs, gid, text, uploads, reply, k).1;
      forall i :: 0 <= i < |reqs| ==> reqs[i].fields != [] && reqs[i].fields[0] == ("chat_id", IntToDecimal(gid))
  {
    match FirstGroup(gs, ActiveGroupIdIs(gid))
    case None =>
    case Some(p) =>
      if uploads != [] {
        var r := FilesOutcome(gs[p].groupName, gid, text, uploads, reply, k);
        FilesOutcomeCases(gs[p].groupName, gid, text, uploads, reply, k);
        FileRequestsAddressed(gid, text, uploads, |r.1|);
      }
  }

  // ---------------------------------------------------------------------
  // The whole run

  datatype Tally = Tally(successful: nat, failed: nat, errors: seq<string>, trace: seq<Request>)

  /** The loop over the selected groups; request 0 was `getMe`, so a
      group's requests are numbered from one past the trace so far. */
  function Run(gs: seq<TelegramGroup>, gids: seq<int>, text: string, uploads: seq<Upload>,
               reply: nat -> Reply): Tally
    decreases |gids|
  {
    if gids == [] then Tally(0, 0, [], [])
    else
      var t := Run(gs, gids[..|gids| - 1], text, uploads, reply);
      Count(t, GroupOutcome(gs, gids[|gids| - 1], text, uploads, reply, 1 + |t.trace|))
  }

  /** The tally after one more group's outcome. */
  function Count(t: Tally, outcome: (Option<string>, seq<Request>)): Tally {
    match outcome.0
    case None => Tally(t.successful + 1, t.failed, t.errors, t.trace + outcome.1)
    case Some(m) => Tally(t.successful, t.failed + 1, t.errors + [m], t.trace + outcome.1)
  }

  /** The run over one more group extends the run before it. */
  lemma RunStep(gs: seq<TelegramGroup>, gids: seq<int>, text: string, uploads: seq<Upload>,
                reply: nat -> Reply, i: nat)
    requires i < |gids|
    ensures var t := Run(gs, gids[..i], text, uploads, reply);
      Run(gs, gids[..i + 1], text, uploads, reply)
        == Count(t, GroupOutcome(gs, gids[i], text, uploads, reply, 1 + |t.trace|))
  {
    assert gids[..i + 1][..i] == gids[..i];
  }

  datatype Response =
    | Failure(error: string)
    | Report(successful: nat, failed: nat, errors: seq<string>)

  const InvalidMethod := "Invalid method"
  const NoGroups := "Guruhlar tanlanmagan"
  const NothingToSend := "Matn yoki fayl kiritilishi kerak"
  const NoToken := "BOT_TOKEN sozlanmagan"
  const PlaceholderToken := "your_bot_token_here"
  const MaxReportedErrors := 5

  function Take<T>(s: seq<T>, n: nat): (r: seq<T>)
    ensures |r| == if |s| <= n then |s| else n
    ensures r <= s
  {
    if |s| <= n then s else s[..n]
  }

  function BadToken(r: Reply): string {
    "Bot token xato: " + match r.error case Some(e) => e case None => "Unknown"
  }

  /** `send_mass_message`: the checks in order, the `getMe` probe, then
      the loop over the groups; the answer and the requests sent. */
  function MassMessage(gs: seq<TelegramGroup>, isPost: bool, gids: seq<int>, rawText: string,
                       uploads: seq<Upload>, botToken: Option<string>, reply: nat -> Reply): (Response, seq<Request>)
  {
    var text := Strip(rawText);
    if !isPost then (Failure(InvalidMethod), [])
    else if gids == [] then (Failure(NoGroups), [])
    else if text == "" && uploads == [] then (Failure(NothingToSend), [])
    else if botToken.None? || botToken.value == "" || botToken.value == PlaceholderToken then (Failure(NoToken), [])
    else if !reply(0).ok then (Failure(BadToken(reply(0))), [GetMe])
    else
      var t := Run(gs, gids, text, uploads, reply);
      (Report(t.successful, t.failed, Take(t.errors, MaxReportedErrors)), [GetMe] + t.trace)
  }

  // ---------------------------------------------------------------------
  // Properties

  /** Every selected group is counted once, as a success or a failure,
      and each failure leaves one error line. */
  lemma {:induction false} RunCounts(gs: seq<TelegramGroup>, gids: seq<int>, text: string,
                                     uploads: seq<Upload>, reply: nat -> Reply)
    ensures var t := Run(gs, gids, text, uploads, reply);
      t.successful + t.failed == |gids| && |t.errors| == t.failed
    decreases |gids|
  {
    if gids != [] {
      RunCounts(gs, gids[..|gids| - 1], text, uploads, reply);
    }
  }

  /** Requests per group: one per file, or one text message. */
  function PerGroup(uploads: seq<Upload>): nat {
    if uploads == [] then 1 else |uploads|
  }

  /** The run sends at most `PerGroup` requests to each group, and every
      request goes to one of the selected chats. */
  lemma {:induction false} RunTraceBound(gs: seq<TelegramGroup>, gids: seq<int>, text: string,
                                         uploads: seq<Upload>, reply: nat -> Reply)
    ensures var t := Run(gs, gids, text, uploads, reply);
      |t.trace| <= |gids| * PerGroup(uploads)
      && forall i :: 0 <= i < |t.trace| ==> AddressedToOneOf(t.trace[i], gids)
    decreases |gids|
  {
    if gids != [] {
      var pre := gids[..|gids| - 1];
      var g := gids[|gids| - 1];
      RunTraceBound(gs, pre, text, uploads, reply);
      var t := Run(gs, pre, text, uploads, reply);
      var reqs := GroupOutcome(gs, g, text, uploads, reply, 1 + |t.trace|).1;
      GroupRequestsAddressed(gs, g, text, uploads, reply, 1 + |t.trace|);
      assert (|gids| - 1) * PerGroup(uploads) + PerGroup(uploads) == |gids| * PerGroup(uploads);
      var all := Run(gs, gids, text, uploads, reply).trace;
      assert all == t.trace + reqs;
      forall i | 0 <= i < |all| ensures AddressedToOneOf(all[i], gids) {
        if i < |t.trace| {
          assert AddressedToOneOf(t.trace[i], pre);
          var h :| h in pre && t.trace[i].fields[0].1 == IntToDecimal(h);
          assert h in gids;
        } else {
          assert all[i] == reqs[i - |t.trace|];
          assert g in gids;
        }
      }
    }
  }

  /** A request whose first field names one of `gids` as its chat. */
  predicate AddressedToOneOf(r: Request, gids: seq<int>) {
    r.fields != [] && r.fields[0].0 == "chat_id" && exists g :: g in gids && r.fields[0].1 == IntToDecimal(g)
  }

  /** The chat id a request carries reads back as the group id it was
      made for. */
  lemma ChatIdReadsBack(gid: int, text: string, uploads: seq<Upload>, i: nat)
    requires i < |uploads|
    ensures var f := FileRequest(gid, text, uploads, i).fields[0].1;
      ((|f| >= 1 && AllDigits(f)) || (|f| >= 2 && f[0] == '-' && AllDigits(f[1..]))) && ParseInt(f) == gid
    ensures var f := TextRequest(gid, text).fields[0].1;
      ((|f| >= 1 && AllDigits(f)) || (|f| >= 2 && f[0] == '-' && AllDigits(f[1..]))) && ParseInt(f) == gid
  {
    IntRoundTrip(gid);
  }

  /** The checks before any send: each rejection happens exactly when
      its condition holds and the earlier ones do not, and sends nothing
      to the groups. */
  lemma Rejections(gs: seq<TelegramGroup>, isPost: bool, gids: seq<int>, rawText: string,
                   uploads: seq<Upload>, botToken: Option<string>, reply: nat -> Reply)
    ensures var (resp, sent) := MassMessage(gs, isPost, gids, rawText, uploads, botToken, reply);
      && (resp == Failure(InvalidMethod) <==> !isPost)
      && (resp == Failure(NoGroups) <==> isPost && gids == [])
      && (resp == Failure(NothingToSend) <==> isPost && gids != [] && Strip(rawText) == "" && uploads == [])
      && (resp.Failure? ==> |sent| <= 1)
      && (resp.Report? <==>
            isPost && gids != [] && (Strip(rawText) != "" || uploads != [])
            && botToken.Some? && botToken.value !in {"", PlaceholderToken} && reply(0).ok)
  {
    var (resp, sent) := MassMessage(gs, isPost, gids, rawText, uploads, botToken, reply);
    if resp.Failure? {
      var e := resp.error;
      assert e[0] == 'I' || e[0] == 'G' || e[0] == 'M' || e[0] == 'B';
      assert e == InvalidMethod ==> !isPost;
      assert e == NoGroups ==> isPost && gids == [];
      assert e == NothingToSend ==> isPost && gids != [] && Strip(rawText) == "" && uploads == [];
    }
  }

  /** The report counts every group and shows the first five error
      lines, in the order the groups were processed. */
  lemma ReportCounts(gs: seq<TelegramGroup>, isPost: bool, gids: seq<int>, rawText: string,
                     uploads: seq<Upload>, botToken: Option<string>, reply: nat -> Reply)
    ensures var (resp, sent) := MassMessage(gs, isPost, gids, rawText, uploads, botToken, reply);
      var t := Run(gs, gids, Strip(rawText), uploads, reply);
      resp.Report? ==>
        && resp.successful + resp.failed == |gids|
        && |resp.errors| == (if resp.failed <= MaxReportedErrors then resp.failed else MaxReportedErrors)
        && resp.errors <= t.errors
        && sent == [GetMe] + t.trace
  {
    RunCounts(gs, gids, Strip(rawText), uploads, reply);
  }

  /** With every group active and every reply ok, every group succeeds
      and nothing is reported. */
  lemma {:induction false} AllDelivered(gs: seq<TelegramGroup>, gids: seq<int>, text: string,
                                        uploads: seq<Upload>, reply: nat -> Reply)
    requires forall g :: g in gids ==> FirstGroup(gs, ActiveGroupIdIs(g)).Some?
    requires forall n: nat :: reply(n).ok
    ensures var t := Run(gs, gids, text, uploads, reply); t.successful == |gids| && t.errors == []
    decreases |gids|
  {
    if gids != [] {
      var pre := gids[..|gids| - 1];
      assert forall g :: g in pre ==> g in gids;
      AllDelivered(gs, pre, text, uploads, reply);
      assert gids[|gids| - 1] in gids;
    }
  }

  /** A failed file send stops the group's remaining files: the requests
      sent are those of the files up to and including the first failing
      one, in file order (`FileRequestsInOrder`). */
  lemma FileFailureStops(gs: seq<TelegramGroup>, gid: int, text: string, uploads: seq<Upload>,
                         reply: nat -> Reply, k: nat, i: nat)
    requires FirstGroup(gs, ActiveGroupIdIs(gid)).Some?
    requires i < |uploads| && !OkAt(reply, k, i)
    requires forall j: nat :: j < i ==> OkAt(reply, k, j)
    ensures var (e, reqs) := GroupOutcome(gs, gid, text, uploads, reply, k);
      && e.Some?
      && reqs == FileRequests(gid, text, uploads, i + 1)
      && e.value == gs[FirstGroup(gs, ActiveGroupIdIs(gid)).value].groupName + FileError + ErrorDetail(reply(k + i))
  {
    var p := FirstGroup(gs, ActiveGroupIdIs(gid)).value;
    assert GroupOutcome(gs, gid, text, uploads, reply, k)
        == FilesOutcome(gs[p].groupName, gid, text, uploads, reply, k);
    FilesStopAt(gs[p].groupName, gid, text, uploads, reply, k, i);
  }

  /** The file sends stop at the first refused file. */
  lemma FilesStopAt(name: string, gid: int, text: string, uploads: seq<Upload>,
                    reply: nat -> Reply, k: nat, i: nat)
    requires i < |uploads| && !OkAt(reply, k, i)
    requires forall j: nat :: j < i ==> OkAt(reply, k, j)
    ensures FilesOutcome(name, gid, text, uploads, reply, k)
         == (Some(FileFailure(name, reply(k + i))), FileRequests(gid, text, uploads, i + 1))
  {
    assert FirstFailure(reply, k, i) == None;
    FirstFailureAt(reply, k, i, |uploads|);
  }

  // ---------------------------------------------------------------------
  // The view as the code runs it

  /** A refusal right after `i` accepted replies is the first one. */
  lemma FirstFailureAt(reply: nat -> Reply, k: nat, i: nat, n: nat)
    requires i < n && FirstFailure(reply, k, i) == None && !OkAt(reply, k, i)
    ensures FirstFailure(reply, k, n) == Some(i)
  {
  }

  /** The inner file loop: stops at the first reply that is not ok. */
  method SendFiles(gid: int, text: string, uploads: seq<Upload>, reply: nat -> Reply, k: nat)
    returns (failedAt: Option<nat>, reqs: seq<Request>)
    ensures failedAt == FirstFailure(reply, k, |uploads|)
    ensures reqs == FileRequests(gid, text, uploads, if failedAt.Some? then failedAt.value + 1 else |uploads|)
  {
    reqs := [];
    for i := 0 to |uploads|
      invariant FirstFailure(reply, k, i) == None
      invariant reqs == FileRequests(gid, text, uploads, i)
    {
      reqs := reqs + [FileRequest(gid, text, uploads, i)];
      if !reply(k + i).ok {
        FirstFailureAt(reply, k, i, |uploads|);
        return Some(i), reqs;
      }
    }
    failedAt := None;
  }

  /** The file sends to one found group. */
  method SendFilesToGroup(name: string, gid: int, text: string, uploads: seq<Upload>,
                          reply: nat -> Reply, k: nat) returns (err: Option<string>, reqs: seq<Request>)
    requires uploads != []
    ensures (err, reqs) == FilesOutcome(name, gid, text, uploads, reply, k)
  {
    var failedAt;
    failedAt, reqs := SendFiles(gid, text, uploads, reply, k);
    err := None;
    if failedAt.Some? {
      err := Some(FileFailure(name, reply(k + failedAt.value)));
    }
  }

  /** One pass of the group loop. */
  method SendToGroup(gs: seq<TelegramGroup>, gid: int, text: string, uploads: seq<Upload>,
                     reply: nat -> Reply, k: nat) returns (err: Option<string>, reqs: seq<Request>)
    ensures (err, reqs) == GroupOutcome(gs, gid, text, uploads, reply, k)
  {
    match FirstGroup(gs, ActiveGroupIdIs(gid))
    case None =>
      err, reqs := Some(NotFound(gid)), [];
    case Some(p) =>
      var name := gs[p].groupName;
      err, reqs := None, [];
      if uploads != [] {
        err, reqs := SendFilesToGroup(name, gid, text, uploads, reply, k);
      } else if text != "" {
        reqs := [TextRequest(gid, text)];
        var result := reply(k);
        if !result.ok {
          err := Some(TextFailure(name, result));
        }
      }
  }

  /** The loop over the selected groups. */
  method SendToGroups(gs: seq<TelegramGroup>, gids: seq<int>, text: string, uploads: seq<Upload>,
                      reply: nat -> Reply) returns (t: Tally)
    ensures t == Run(gs, gids, text, uploads, reply)
  {
    var successful, failed, errors, trace := 0, 0, [], [];
    var i := 0;
    while i < |gids|
      invariant 0 <= i <= |gids|
      invariant Run(gs, gids[..i], text, uploads, reply) == Tally(successful, failed, errors, trace)
    {
      var err, reqs := SendToGroup(gs, gids[i], text, uploads, reply, 1 + |trace|);
      RunStep(gs, gids, text, uploads, reply, i);
      if err.None? {
        successful := successful + 1;
      } else {
        failed := failed + 1;
        errors := errors + [err.value];
      }
      trace := trace + reqs;
      i := i + 1;
    }
    assert gids[..|gids|] == gids;
    t := Tally(successful, failed, errors, trace);
  }

  /** `send_mass_message` over the store's groups: the answer and the
      requests sent are those of `MassMessage`. */
  method SendMassMessage(st: Store, isPost: bool, gids: seq<int>, rawText: string, uploads: seq<Upload>,
                         botToken: Option<string>, reply: nat -> Reply) returns (response: Response, sent: seq<Request>)
    ensures (response, sent) == MassMessage(st.groups, isPost, gids, rawText, uploads, botToken, reply)
  {
    if !isPost {
      return Failure(InvalidMethod), [];
    }
    var text := Strip(rawText);
    if gids == [] {
      return Failure(NoGroups), [];
    }
    if text == "" && uploads == [] {
      return Failure(NothingToSend), [];
    }
    if botToken.None? || botToken.value == "" || botToken.value == PlaceholderToken {
      return Failure(NoToken), [];
    }
    var probe := reply(0);
    if !probe.ok {
      return Failure(BadToken(probe)), [GetMe];
    }
    var t := SendToGroups(st.groups, gids, text, uploads, reply);
    response := Report(t.successful, t.failed, Take(t.errors, MaxReportedErrors));
    sent := [GetMe] + t.trace;
  }
}
