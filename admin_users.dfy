/** `CustomUserManager` (accounts/managers.py): the checks and defaults
    applied before an admin account is saved to the `admins` table.

    Python values reach the manager untyped, so a field value is a
    `Value`; `Truthy` is Python's truth test and `IsTrue` the identity
    test `is True`, which only the boolean `True` passes. */
module AdminUsers {
  import opened Wrappers

  datatype Value = NoneValue | BoolValue(b: bool) | IntValue(i: int) | TextValue(s: string)

  /** `bool(v)`: None, False, 0 and "" are false. */
  predicate Truthy(v: Value) {
    match v
    case NoneValue => false
    case BoolValue(b) => b
    case IntValue(i) => i != 0
    case TextValue(s) => s != ""
  }

  predicate IsTrue(v: Value) {
    v == BoolValue(true)
  }

  /** An admin account as the manager builds it; the password is kept
      as given (None for an unusable one). */
  datatype AdminUser = AdminUser(username: Value, telegramId: Value, password: Option<string>, extra: map<string, Value>)

  const UsernameRequired := "Username kiritilishi kerak"
  const TelegramIdRequired := "Telegram ID kiritilishi kerak"

  /** The three flags `create_superuser` defaults and then insists on,
      with the message for each, in the order they are checked. */
  const SuperuserFlags: seq<(string, string)> := [
    ("is_staff", "Superuser must have is_staff=True."),
    ("is_superuser", "Superuser must have is_superuser=True."),
    ("is_superadmin", "Superuser must have is_superadmin=True.")
  ]

  // ---------------------------------------------------------------------
  // Specification

  /** `create_user`: a missing username or Telegram id raises, in that
      order; otherwise the account carries the given values. */
  function NewUser(username: Value, telegramId: Value, password: Option<string>, extra: map<string, Value>): (r: Result<AdminUser>)
    ensures r == Err(UsernameRequired) <==> !Truthy(username)
    ensures r == Err(TelegramIdRequired) <==> Truthy(username) && !Truthy(telegramId)
    ensures r.Ok? <==> Truthy(username) && Truthy(telegramId)
    ensures r.Ok? ==> r.value == AdminUser(username, telegramId, password, extra)
  {
    if !Truthy(username) then Err(UsernameRequired)
    else if !Truthy(telegramId) then Err(TelegramIdRequired)
    else Ok(AdminUser(username, telegramId, password, extra))
  }

  /** `dict.setdefault(key, True)`. */
  function SetDefaultTrue(m: map<string, Value>, key: string): (r: map<string, Value>)
    ensures key in r && (key in m ==> r[key] == m[key]) && (key !in m ==> IsTrue(r[key]))
    ensures r.Keys == m.Keys + {key}
    ensures forall k :: k in m && k != key ==> r[k] == m[k]
  {
    if key in m then m else m[key := BoolValue(true)]
  }

  /** The fields after the three `setdefault` calls. */
  function SuperuserDefaults(extra: map<string, Value>, flags: seq<(string, string)>): map<string, Value>
    decreases |flags|
  {
    if flags == [] then extra
    else SetDefaultTrue(SuperuserDefaults(extra, flags[..|flags| - 1]), flags[|flags| - 1].0)
  }

  /** The message of the first flag in `flags` that is not `True`. */
  function FirstNotTrue(fields: map<string, Value>, flags: seq<(string, string)>): (r: Option<string>)
    ensures r.None? <==> forall j :: 0 <= j < |flags| ==> flags[j].0 in fields && IsTrue(fields[flags[j].0])
    ensures r.Some? ==> exists j :: (0 <= j < |flags| && r.value == flags[j].1
      && (flags[j].0 !in fields || !IsTrue(fields[flags[j].0]))
      && forall l :: 0 <= l < j ==> flags[l].0 in fields && IsTrue(fields[flags[l].0]))
    decreases |flags|
  {
    if flags == [] then None
    else if flags[0].0 !in fields || !IsTrue(fields[flags[0].0]) then Some(flags[0].1)
    else
      var r := FirstNotTrue(fields, flags[1..]);
      if r.Some? then
        var j :| 0 <= j < |flags[1..]| && r.value == flags[1..][j].1
          && (flags[1..][j].0 !in fields || !IsTrue(fields[flags[1..][j].0]))
          && forall l :: 0 <= l < j ==> flags[1..][l].0 in fields && IsTrue(fields[flags[1..][l].0]);
        assert flags[j + 1] == flags[1..][j];
        assert forall l :: 1 <= l < j + 1 ==> flags[l] == flags[1..][l - 1];
        r
      else
        assert forall j :: 1 <= j < |flags| ==> flags[j] == flags[1..][j - 1];
        r
  }

  /** `create_superuser`: default the flags, reject any that is not
      `True`, then hand over to `create_user`. */
  function NewSuperuser(username: Value, telegramId: Value, password: Option<string>, extra: map<string, Value>): Result<AdminUser> {
    var fields := SuperuserDefaults(extra, SuperuserFlags);
    match FirstNotTrue(fields, SuperuserFlags)
    case Some(message) => Err(message)
    case None => NewUser(username, telegramId, password, fields)
  }

  // ---------------------------------------------------------------------
  // Properties

  /** The defaults add exactly the absent flags, as `True`, and leave
      every supplied value alone. */
  lemma DefaultsFillAbsentFlags(extra: map<string, Value>, flags: seq<(string, string)>)
    ensures var f := SuperuserDefaults(extra, flags);
      && (forall j :: 0 <= j < |flags| ==> flags[j].0 in f)
      && (forall j :: 0 <= j < |flags| && flags[j].0 !in extra ==> IsTrue(f[flags[j].0]))
      && (forall k :: k in extra ==> k in f && f[k] == extra[k])
      && (forall k :: k in f ==> k in extra || exists j :: 0 <= j < |flags| && flags[j].0 == k)
  {
    DefaultsSetFlags(extra, flags);
    DefaultsAddOnlyFlags(extra, flags);
  }

  /** Every flag is present afterwards, an absent one as `True`, and
      every supplied value is kept. */
  lemma {:induction false} DefaultsSetFlags(extra: map<string, Value>, flags: seq<(string, string)>)
    ensures var f := SuperuserDefaults(extra, flags);
      && (forall j :: 0 <= j < |flags| ==> flags[j].0 in f)
      && (forall j :: 0 <= j < |flags| && flags[j].0 !in extra ==> IsTrue(f[flags[j].0]))
      && (forall k :: k in extra ==> k in f && f[k] == extra[k])
    decreases |flags|
  {
    if flags != [] {
      var pre := flags[..|flags| - 1];
      DefaultsSetFlags(extra, pre);
      var f := SuperuserDefaults(extra, flags);
      forall j | 0 <= j < |flags| ensures flags[j].0 in f {
        if j < |pre| {
          assert flags[j] == pre[j];
        }
      }
      forall j | 0 <= j < |flags| && flags[j].0 !in extra ensures IsTrue(f[flags[j].0]) {
        if j < |pre| {
          assert flags[j] == pre[j];
        } else if flags[j].0 in SuperuserDefaults(extra, pre) {
          DefaultsAddOnlyFlags(extra, pre);
          var l :| 0 <= l < |pre| && pre[l].0 == flags[j].0;
        }
      }
    }
  }

  /** No key appears that is neither supplied nor a flag. */
  lemma {:induction false} DefaultsAddOnlyFlags(extra: map<string, Value>, flags: seq<(string, string)>)
    ensures var f := SuperuserDefaults(extra, flags);
      forall k :: k in f ==> k in extra || exists j :: 0 <= j < |flags| && flags[j].0 == k
    decreases |flags|
  {
    if flags != [] {
      var pre := flags[..|flags| - 1];
      DefaultsAddOnlyFlags(extra, pre);
      var f := SuperuserDefaults(extra, flags);
      forall k | k in f ensures k in extra || exists j :: 0 <= j < |flags| && flags[j].0 == k {
        if k !in extra && k != flags[|flags| - 1].0 {
          var j :| 0 <= j < |pre| && pre[j].0 == k;
          assert flags[j] == pre[j];
        }
      }
    }
  }

  /** Called with none of the flags, or with all of them `True`, the
      superuser inherits `create_user`'s checks unchanged; the account
      then holds all three flags as `True`. */
  lemma SuperuserWithTrueFlags(username: Value, telegramId: Value, password: Option<string>, extra: map<string, Value>)
    requires forall j :: 0 <= j < |SuperuserFlags| ==> SuperuserFlags[j].0 !in extra || IsTrue(extra[SuperuserFlags[j].0])
    ensures var r := NewSuperuser(username, telegramId, password, extra);
      && (r == Err(UsernameRequired) <==> !Truthy(username))
      && (r == Err(TelegramIdRequired) <==> Truthy(username) && !Truthy(telegramId))
      && (r.Ok? ==> forall j :: 0 <= j < |SuperuserFlags| ==> IsTrue(r.value.extra[SuperuserFlags[j].0]))
  {
    DefaultsFillAbsentFlags(extra, SuperuserFlags);
  }

  /** A flag supplied with any value but `True` is rejected, with the
      message of the first such flag, and no account is built. */
  lemma SuperuserRejectsNonTrueFlag(username: Value, telegramId: Value, password: Option<string>,
                                    extra: map<string, Value>, j: nat)
    requires j < |SuperuserFlags|
    requires SuperuserFlags[j].0 in extra && !IsTrue(extra[SuperuserFlags[j].0])
    requires forall l :: 0 <= l < j ==> SuperuserFlags[l].0 !in extra || IsTrue(extra[SuperuserFlags[l].0])
    ensures NewSuperuser(username, telegramId, password, extra) == Err(SuperuserFlags[j].1)
  {
    var fields := SuperuserDefaults(extra, SuperuserFlags);
    DefaultsSetFlags(extra, SuperuserFlags);
    FirstNotTrueAt(fields, SuperuserFlags, j);
  }

  /** The first flag not `True` is the one reported. */
  lemma {:induction false} FirstNotTrueAt(fields: map<string, Value>, flags: seq<(string, string)>, j: nat)
    requires j < |flags| && (flags[j].0 !in fields || !IsTrue(fields[flags[j].0]))
    requires forall l :: 0 <= l < j ==> flags[l].0 in fields && IsTrue(fields[flags[l].0])
    ensures FirstNotTrue(fields, flags) == Some(flags[j].1)
    decreases j
  {
    if j > 0 {
      assert flags[0].0 in fields && IsTrue(fields[flags[0].0]);
      var rest := flags[1..];
      forall l | 0 <= l < j - 1 ensures rest[l].0 in fields && IsTrue(fields[rest[l].0]) {
        assert rest[l] == flags[l + 1];
      }
      FirstNotTrueAt(fields, rest, j - 1);
    }
  }

  /** With the default `telegram_id=None` no superuser is created. */
  lemma SuperuserNeedsTelegramId(username: Value, password: Option<string>, extra: map<string, Value>)
    ensures NewSuperuser(username, NoneValue, password, extra).Err?
  {
  }

  // ---------------------------------------------------------------------
  // The manager over the admins table

  /** The three `extra_fields.setdefault(flag, True)` calls. */
  method ApplyDefaults(extra: map<string, Value>) returns (fields: map<string, Value>)
    ensures fields == SuperuserDefaults(extra, SuperuserFlags)
  {
    fields := extra;
    for i := 0 to |SuperuserFlags|
      invariant fields == SuperuserDefaults(extra, SuperuserFlags[..i])
    {
      var key := SuperuserFlags[i].0;
      if key !in fields {
        fields := fields[key := BoolValue(true)];
      }
      assert SuperuserFlags[..i + 1][..i] == SuperuserFlags[..i];
    }
    assert SuperuserFlags[..|SuperuserFlags|] == SuperuserFlags;
  }

  /** The three `is not True` checks, in order: the message of the first
      that fails. */
  method CheckFlags(fields: map<string, Value>) returns (rejected: Option<string>)
    ensures rejected == FirstNotTrue(fields, SuperuserFlags)
  {
    for i := 0 to |SuperuserFlags|
      invariant FirstNotTrue(fields, SuperuserFlags) == FirstNotTrue(fields, SuperuserFlags[i..])
    {
      var (key, message) := SuperuserFlags[i];
      if key !in fields || !IsTrue(fields[key]) {
        return Some(message);
      }
      assert SuperuserFlags[i..][1..] == SuperuserFlags[i + 1..];
    }
    rejected := None;
  }

  class AdminTable {
    var users: seq<AdminUser>

    constructor ()
      ensures users == []
    {
      users := [];
    }

    /** `create_user`: raise, or save the new account. */
    method CreateUser(username: Value, telegramId: Value, password: Option<string>, extra: map<string, Value>)
      returns (r: Result<AdminUser>)
      modifies this
      ensures r == NewUser(username, telegramId, password, extra)
      ensures users == if r.Ok? then old(users) + [r.value] else old(users)
    {
      if !Truthy(username) {
        return Err(UsernameRequired);
      }
      if !Truthy(telegramId) {
        return Err(TelegramIdRequired);
      }
      var user := AdminUser(username, telegramId, password, extra);
      users := users + [user];
      r := Ok(user);
    }

    /** `create_superuser`: the `setdefault` calls on the keyword
        arguments, the three checks, then `create_user`. */
    method CreateSuperuser(username: Value, telegramId: Value, password: Option<string>, extra: map<string, Value>)
      returns (r: Result<AdminUser>)
      modifies this
      ensures r == NewSuperuser(username, telegramId, password, extra)
      ensures users == if r.Ok? then old(users) + [r.value] else old(users)
    {
      var fields := ApplyDefaults(extra);
      var rejected := CheckFlags(fields);
      if rejected.Some? {
        return Err(rejected.value);
      }
      r := CreateUser(username, telegramId, password, fields);
    }
  }
}
