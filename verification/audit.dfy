/**
 * The security audit log: client address extraction, e-mail masking, the
 * `key=value | key=value` message and the event names of the convenience
 * helpers. Writing to the logging handler is left out; a log call is
 * modelled by the record it would emit.
 */
module Audit {
  import opened Wrappers
  import Strings

  /** What the log reads from a request: the `X-Forwarded-For` header and the peer address. */
  datatype Request = Request(forwardedFor: Option<string>, clientHost: Option<string>)

  /** `info` for a success, `warning` for a failure. */
  datatype Level = Info | Warning

  /** One emitted audit line. */
  datatype LogRecord = LogRecord(level: Level, message: string)

  /**
   * `get_client_ip`: the first `X-Forwarded-For` entry, stripped, when the
   * header is present and non-empty; else the peer address; else "unknown".
   */
  function ClientIp(request: Option<Request>): (ip: string)
    ensures request.None? ==> ip == "unknown"
    ensures request.Some? && request.value.forwardedFor.Some? && |request.value.forwardedFor.value| > 0 ==>
      ip == Strings.Strip(Strings.TakeUntil(request.value.forwardedFor.value, ','))
    ensures request.Some? && (request.value.forwardedFor.None? || |request.value.forwardedFor.value| == 0) ==>
      ip == request.value.clientHost.GetOr("unknown")
  {
    match request
    case None => "unknown"
    case Some(r) =>
      if r.forwardedFor.Some? && |r.forwardedFor.value| > 0 then
        Strings.SplitHead(r.forwardedFor.value, ',');
        Strings.Strip(Strings.Split(r.forwardedFor.value, ',')[0])
      else match r.clientHost
        case Some(host) => host
        case None => "unknown"
  }

  /** A proxy chain `client, proxy1, proxy2, …` names its first hop, whatever the rest says. */
  lemma {:induction false} ClientIpOfChain(client: string, proxies: seq<string>, host: Option<string>)
    requires |client| > 0 && ',' !in client && Strings.Strip(client) == client
    ensures ClientIp(Some(Request(Some(Strings.Join([client] + proxies, ',')), host))) == client
  {
    var parts := [client] + proxies;
    var header := Strings.Join(parts, ',');
    var rest := if |proxies| == 0 then "" else [','] + Strings.Join(proxies, ',');
    assert header == client + rest by {
      if |proxies| == 0 {
        assert parts == [client];
      } else {
        assert parts[1..] == proxies;
      }
    }
    Strings.TakeUntilPrefix(client, ',', rest);
    assert Strings.TakeUntil(header, ',') == client;
  }

  /** The position of the last `c` in `s`. */
  function LastIndex(s: string, c: char): (r: Option<nat>)
    ensures r.None? <==> c !in s
    ensures r.Some? ==> r.value < |s| && s[r.value] == c && c !in s[r.value + 1..]
  {
    if |s| == 0 then None
    else if s[|s| - 1] == c then Some(|s| - 1)
    else
      var r := LastIndex(s[..|s| - 1], c);
      assert forall x :: x in s <==> x in s[..|s| - 1] || x == s[|s| - 1] by {
        assert s == s[..|s| - 1] + [s[|s| - 1]];
      }
      if r.Some? then
        assert s[r.value + 1..] == s[..|s| - 1][r.value + 1..] + [s[|s| - 1]];
        r
      else r
  }

  /** The local part of at most two characters fully starred, else first and last kept. */
  function MaskLocal(local: string): (r: string)
    ensures |r| == |local|
    ensures |local| <= 2 ==> forall i :: 0 <= i < |r| ==> r[i] == '*'
    ensures |local| > 2 ==>
      r[0] == local[0] && r[|r| - 1] == local[|local| - 1] && forall i :: 0 < i < |r| - 1 ==> r[i] == '*'
  {
    if |local| <= 2 then Strings.Repeat('*', |local|)
    else [local[0]] + Strings.Repeat('*', |local| - 2) + [local[|local| - 1]]
  }

  /**
   * `_mask_email`: "***" without an '@'; otherwise the text up to the last
   * '@' is masked and the domain after it is kept.
   */
  function MaskEmail(email: string): (r: string)
    ensures '@' !in email ==> r == "***"
    ensures '@' in email ==>
      var at := LastIndex(email, '@').value;
      |r| == |email| && r[at..] == email[at..] && r[..at] == MaskLocal(email[..at])
  {
    match LastIndex(email, '@')
    case None => "***"
    case Some(at) =>
      var r := MaskLocal(email[..at]) + email[at..];
      assert r[..at] == MaskLocal(email[..at]);
      r
  }

  /** At most two characters of the local part survive masking; everything else there is a '*'. */
  lemma MaskRevealsAtMostTwo(email: string, i: nat)
    requires '@' in email
    requires var at := LastIndex(email, '@').value; i < at && (at <= 2 || 0 < i < at - 1)
    ensures MaskEmail(email)[i] == '*'
  {
    var at := LastIndex(email, '@').value;
    assert MaskEmail(email)[i] == MaskEmail(email)[..at][i];
  }

  /**
   * Two addresses that differ only inside the hidden middle of the local
   * part produce the same masked text.
   */
  lemma MaskHidesMiddle(a: string, b: string)
    requires '@' in a && '@' in b
    requires var i := LastIndex(a, '@').value; var j := LastIndex(b, '@').value;
      i == j && a[i..] == b[i..] && (i <= 2 || (a[0] == b[0] && a[i - 1] == b[i - 1]))
    ensures MaskEmail(a) == MaskEmail(b)
  {
    var at := LastIndex(a, '@').value;
    assert MaskLocal(a[..at]) == MaskLocal(b[..at]);
    assert MaskEmail(a) == MaskEmail(a)[..at] + MaskEmail(a)[at..];
    assert MaskEmail(b) == MaskEmail(b)[..at] + MaskEmail(b)[at..];
  }

  /** Python's truthiness of an optional string: present and non-empty. */
  predicate Given(s: Option<string>) {
    s.Some? && |s.value| > 0
  }

  /** `"SUCCESS"` or `"FAILED"`. */
  function StatusText(success: bool): string {
    if success then "SUCCESS" else "FAILED"
  }

  /** The two fields every line starts with: `event=…` and `status=…`. */
  function Head(event: string, success: bool): string {
    "event=" + event + " | status=" + StatusText(success)
  }

  /** A given address, masked. */
  function Masked(email: Option<string>): (r: Option<string>)
    ensures Given(r) <==> Given(email)
  {
    if Given(email) then Some(MaskEmail(email.value)) else None
  }

  /** One `key=value` field. */
  function Pair(key: string, value: string): string {
    key + "=" + value
  }

  /** The `key=value` field of a given value, else no field. */
  function OptPart(key: string, value: Option<string>): seq<string> {
    if Given(value) then [Pair(key, value.value)] else []
  }

  /** The fields of a log line, before joining. */
  function MessageParts(event: string, email: Option<string>, userId: Option<string>, ip: Option<string>,
                        details: Option<string>, success: bool): (parts: seq<string>)
    ensures |parts| >= 2
    ensures parts[0] == "event=" + event && parts[1] == "status=" + StatusText(success)
    ensures |parts| == 2 + (if Given(email) then 1 else 0) + (if Given(userId) then 1 else 0)
                         + (if Given(ip) then 1 else 0) + (if Given(details) then 1 else 0)
    ensures Given(email) ==> parts[2] == Pair("user", MaskEmail(email.value))
    ensures Given(details) ==> parts[|parts| - 1] == Pair("details", details.value)
  {
    var p1 := ["event=" + event, "status=" + StatusText(success)] + OptPart("user", Masked(email));
    var p3 := p1 + OptPart("user_id", userId) + OptPart("ip", ip);
    p3 + OptPart("details", details)
  }

  /** Python `sep.join(parts)` for a separator of several characters. */
  function JoinWith(parts: seq<string>, sep: string): string {
    if |parts| == 0 then ""
    else if |parts| == 1 then parts[0]
    else parts[0] + sep + JoinWith(parts[1..], sep)
  }

  /** Joining one more part appends a separator and that part. */
  lemma {:induction false} JoinWithSnoc(parts: seq<string>, sep: string, x: string)
    requires |parts| >= 1
    ensures JoinWith(parts + [x], sep) == JoinWith(parts, sep) + (sep + x)
  {
    if |parts| > 1 {
      assert (parts + [x])[1..] == parts[1..] + [x];
      JoinWithSnoc(parts[1..], sep, x);
    } else {
      assert (parts + [x])[1..] == [x];
    }
  }

  /** ` | key=value` for a given value, else nothing: one field as it reads in the line. */
  function Field(key: string, value: Option<string>): string {
    if Given(value) then " | " + Pair(key, value.value) else ""
  }

  /** Joining an optional field appends it as `Field` spells it. */
  lemma JoinOptPart(parts: seq<string>, key: string, value: Option<string>)
    requires |parts| >= 1
    ensures JoinWith(parts + OptPart(key, value), " | ") == JoinWith(parts, " | ") + Field(key, value)
  {
    if Given(value) {
      JoinWithSnoc(parts, " | ", Pair(key, value.value));
    } else {
      assert parts + OptPart(key, value) == parts;
    }
  }

  /** The joined line, field by field: each optional field present exactly when given, in the fixed order. */
  lemma LineFields(event: string, email: Option<string>, userId: Option<string>, ip: Option<string>,
                   details: Option<string>, success: bool)
    ensures JoinWith(MessageParts(event, email, userId, ip, details, success), " | ")
      == Head(event, success)
         + Field("user", Masked(email)) + Field("user_id", userId) + Field("ip", ip) + Field("details", details)
  {
    var p0 := ["event=" + event, "status=" + StatusText(success)];
    var p1 := p0 + OptPart("user", Masked(email));
    var p2 := p1 + OptPart("user_id", userId);
    var p3 := p2 + OptPart("ip", ip);
    assert MessageParts(event, email, userId, ip, details, success) == p3 + OptPart("details", details);
    assert JoinWith(p0, " | ") == Head(event, success) by {
      assert p0[1..] == [p0[1]];
    }
    JoinOptPart(p0, "user", Masked(email));
    JoinOptPart(p1, "user_id", userId);
    JoinOptPart(p2, "ip", ip);
    JoinOptPart(p3, "details", details);
  }

  /** The joined line starts with the event and its status, and ends with the details field when given. */
  lemma LineShape(event: string, email: Option<string>, userId: Option<string>, ip: Option<string>,
                  details: Option<string>, success: bool)
    ensures var m := JoinWith(MessageParts(event, email, userId, ip, details, success), " | ");
      var prefix := Head(event, success);
      |prefix| <= |m| && m[..|prefix|] == prefix
    ensures Given(details) ==>
      var m := JoinWith(MessageParts(event, email, userId, ip, details, success), " | ");
      var suffix := " | " + Pair("details", details.value);
      |suffix| <= |m| && m[|m| - |suffix|..] == suffix
  {
    var m := JoinWith(MessageParts(event, email, userId, ip, details, success), " | ");
    var b, c, d, last := Field("user", Masked(email)), Field("user_id", userId), Field("ip", ip), Field("details", details);
    LineFields(event, email, userId, ip, details, success);
    ConcatShape(Head(event, success), b, c, d, last);
  }

  /** A text of five pieces begins with the first and ends with the last. */
  lemma ConcatShape(first: string, b: string, c: string, d: string, last: string)
    ensures var m := first + b + c + d + last;
      |first| <= |m| && m[..|first|] == first && |last| <= |m| && m[|m| - |last|..] == last
  {
    var m := first + b + c + d + last;
    assert m == first + (b + c + d + last);
  }

  /** An absent field adds nothing to a line. */
  lemma NoField(key: string, head: string, b: string, c: string, d: string)
    ensures head + b + Field(key, None) + c + d == head + b + c + d
  {
    assert head + b + "" == head + b;
  }

  /** The address a request contributes to a line, if there is a request. */
  function RequestAddress(request: Option<Request>): Option<string> {
    if request.Some? then Some(ClientIp(request)) else None
  }

  /**
   * `log_audit_event`. The record is a warning exactly when the event
   * failed. The line lists the event, its status and then, each only when
   * given, the masked address, the user key, the client address and the
   * details. A client address passed in is recorded as it is; only when
   * none is passed is it taken from the request.
   */
  function LogAuditEvent(event: string, email: Option<string>, userId: Option<string>, ip: Option<string>,
                         details: Option<string>, success: bool, request: Option<Request>): (r: LogRecord)
    ensures r.level == (if success then Info else Warning)
    ensures ip.Some? ==>
      r.message == Head(event, success)
        + Field("user", Masked(email)) + Field("user_id", userId) + Field("ip", ip) + Field("details", details)
    ensures ip.None? ==>
      r.message == Head(event, success)
        + Field("user", Masked(email)) + Field("user_id", userId) + Field("ip", RequestAddress(request)) + Field("details", details)
  {
    var address := if ip.None? && request.Some? then Some(ClientIp(request)) else ip;
    LineFields(event, email, userId, address, details, success);
    LogRecord(if success then Info else Warning, JoinWith(MessageParts(event, email, userId, address, details, success), " | "))
  }

  /** A bare event with no optional fields is logged as exactly its two leading fields. */
  lemma BareEventMessage(event: string, success: bool)
    ensures LogAuditEvent(event, None, None, None, None, success, None).message
      == Head(event, success)
  {
    var parts := MessageParts(event, None, None, None, None, success);
    assert |parts| == 2 && parts[1..] == [parts[1]];
    assert JoinWith(parts, " | ") == parts[0] + " | " + parts[1];
  }

  /**
   * `log_login_success`: an information line naming `ADMIN_LOGIN` for an
   * administrator and `LOGIN_SUCCESS` for everyone else, with the masked
   * address and the request's client address.
   */
  function LoginSuccess(email: string, request: Option<Request>, isAdmin: bool): (r: LogRecord)
    ensures r.level == Info
    ensures r.message == Head(if isAdmin then "ADMIN_LOGIN" else "LOGIN_SUCCESS", true)
      + Field("user", Masked(Some(email))) + Field("ip", RequestAddress(request))
  {
    var event := if isAdmin then "ADMIN_LOGIN" else "LOGIN_SUCCESS";
    NoField("user_id", Head(event, true), Field("user", Masked(Some(email))), Field("ip", RequestAddress(request)), Field("details", None));
    LogAuditEvent(event, Some(email), None, None, None, true, request)
  }

  /** `log_login_failed`: a warning line that ends with the reason, when one is given. */
  function LoginFailed(email: string, request: Option<Request>, reason: string): (r: LogRecord)
    ensures r.level == Warning
    ensures r.message == Head("LOGIN_FAILED", false)
      + Field("user", Masked(Some(email))) + Field("ip", RequestAddress(request)) + Field("details", Some(reason))
  {
    NoField("user_id", Head("LOGIN_FAILED", false), Field("user", Masked(Some(email))), Field("ip", RequestAddress(request)), Field("details", Some(reason)));
    LogAuditEvent("LOGIN_FAILED", Some(email), None, None, Some(reason), false, request)
  }

  /** `log_account_locked`: a warning line that names the lockout's cause. */
  function AccountLocked(email: string, request: Option<Request>): (r: LogRecord)
    ensures r.level == Warning
    ensures r.message == Head("ACCOUNT_LOCKED", false)
      + Field("user", Masked(Some(email))) + Field("ip", RequestAddress(request))
      + Field("details", Some("Too many failed login attempts"))
  {
    NoField("user_id", Head("ACCOUNT_LOCKED", false), Field("user", Masked(Some(email))), Field("ip", RequestAddress(request)), Field("details", Some("Too many failed login attempts")));
    LogAuditEvent("ACCOUNT_LOCKED", Some(email), None, None, Some("Too many failed login attempts"), false, request)
  }

  /** The event name of an MFA step; an unknown step is logged as a sent code. */
  function MfaEventName(eventType: string): (name: string)
    ensures name in {"MFA_SENT", "MFA_VERIFIED", "MFA_FAILED"}
    ensures ' ' !in name
    ensures name == "MFA_VERIFIED" <==> eventType == "verified"
    ensures name == "MFA_FAILED" <==> eventType == "failed"
  {
    if eventType == "verified" then "MFA_VERIFIED"
    else if eventType == "failed" then "MFA_FAILED"
    else "MFA_SENT"
  }

  /** `log_mfa_event`: the step's event name, with a level that follows `success`. */
  function MfaEvent(email: string, eventType: string, request: Option<Request>, success: bool): (r: LogRecord)
    ensures r.level == (if success then Info else Warning)
    ensures r.message == Head(MfaEventName(eventType), success)
      + Field("user", Masked(Some(email))) + Field("ip", RequestAddress(request))
  {
    NoField("user_id", Head(MfaEventName(eventType), success), Field("user", Masked(Some(email))), Field("ip", RequestAddress(request)), Field("details", None));
    LogAuditEvent(MfaEventName(eventType), Some(email), None, None, None, success, request)
  }

  /** `log_registration`: an information line with the masked address. */
  function Registration(email: string, request: Option<Request>): (r: LogRecord)
    ensures r.level == Info
    ensures r.message == Head("REGISTRATION", true)
      + Field("user", Masked(Some(email))) + Field("ip", RequestAddress(request))
  {
    NoField("user_id", Head("REGISTRATION", true), Field("user", Masked(Some(email))), Field("ip", RequestAddress(request)), Field("details", None));
    LogAuditEvent("REGISTRATION", Some(email), None, None, None, true, request)
  }

  /** The event name of an administrator action; an unknown action is logged as a settings change. */
  function AdminActionName(action: string): (name: string)
    ensures name in {"SETTINGS_CHANGED", "VOCABULARY_CREATED", "VOCABULARY_UPDATED", "VOCABULARY_DELETED", "CSV_IMPORTED"}
    ensures ' ' !in name
    ensures action !in {"vocab_created", "vocab_updated", "vocab_deleted", "csv_imported"} ==> name == "SETTINGS_CHANGED"
    ensures action == "csv_imported" <==> name == "CSV_IMPORTED"
  {
    if action == "vocab_created" then "VOCABULARY_CREATED"
    else if action == "vocab_updated" then "VOCABULARY_UPDATED"
    else if action == "vocab_deleted" then "VOCABULARY_DELETED"
    else if action == "csv_imported" then "CSV_IMPORTED"
    else "SETTINGS_CHANGED"
  }

  /** `log_admin_action`: always an information line, ending with the details when given. */
  function AdminAction(action: string, adminEmail: string, details: string, request: Option<Request>): (r: LogRecord)
    ensures r.level == Info
    ensures r.message == Head(AdminActionName(action), true)
      + Field("user", Masked(Some(adminEmail))) + Field("ip", RequestAddress(request)) + Field("details", Some(details))
  {
    NoField("user_id", Head(AdminActionName(action), true), Field("user", Masked(Some(adminEmail))), Field("ip", RequestAddress(request)), Field("details", Some(details)));
    LogAuditEvent(AdminActionName(action), Some(adminEmail), None, None, Some(details), true, request)
  }

  /** The event a line names: the text after its leading `event=`, up to the first space. */
  function EventOf(message: string): string {
    if |message| >= 6 && message[..6] == "event=" then Strings.TakeUntil(message[6..], ' ') else ""
  }

  /** A line reads back the event it was written for, whatever follows the head. */
  lemma {:induction false} EventReadsBack(event: string, success: bool, rest: string)
    requires ' ' !in event
    ensures EventOf(Head(event, success) + rest) == event
  {
    var tail := " | status=" + StatusText(success) + rest;
    var m := Head(event, success) + rest;
    assert m == "event=" + (event + tail);
    assert m[6..] == event + tail;
    Strings.TakeUntilPrefix(event, ' ', tail);
    assert Strings.TakeUntil(tail, ' ') == "";
  }

  /** The same, for a line of the helpers' shape: the head, then two fields. */
  lemma TwoFieldLineReadsBack(event: string, success: bool, user: string, ip: string)
    requires ' ' !in event
    ensures EventOf(Head(event, success) + user + ip) == event
  {
    EventReadsBack(event, success, user + ip);
    assert Head(event, success) + user + ip == Head(event, success) + (user + ip);
  }

  /** The same, for the head followed by three fields. */
  lemma ThreeFieldLineReadsBack(event: string, success: bool, user: string, ip: string, details: string)
    requires ' ' !in event
    ensures EventOf(Head(event, success) + user + ip + details) == event
  {
    EventReadsBack(event, success, user + ip + details);
    assert Head(event, success) + user + ip + details == Head(event, success) + (user + ip + details);
  }

  // One lemma per helper: the line it writes reads back the event it names.

  lemma LoginSuccessReadsBack(email: string, request: Option<Request>, isAdmin: bool)
    ensures EventOf(LoginSuccess(email, request, isAdmin).message) == if isAdmin then "ADMIN_LOGIN" else "LOGIN_SUCCESS"
  {
    TwoFieldLineReadsBack(if isAdmin then "ADMIN_LOGIN" else "LOGIN_SUCCESS", true,
                          Field("user", Masked(Some(email))), Field("ip", RequestAddress(request)));
  }

  lemma LoginFailedReadsBack(email: string, request: Option<Request>, reason: string)
    ensures EventOf(LoginFailed(email, request, reason).message) == "LOGIN_FAILED"
  {
    ThreeFieldLineReadsBack("LOGIN_FAILED", false, Field("user", Masked(Some(email))), Field("ip", RequestAddress(request)),
                            Field("details", Some(reason)));
  }

  lemma AccountLockedReadsBack(email: string, request: Option<Request>)
    ensures EventOf(AccountLocked(email, request).message) == "ACCOUNT_LOCKED"
  {
    ThreeFieldLineReadsBack("ACCOUNT_LOCKED", false, Field("user", Masked(Some(email))), Field("ip", RequestAddress(request)),
                            Field("details", Some("Too many failed login attempts")));
  }

  lemma RegistrationReadsBack(email: string, request: Option<Request>)
    ensures EventOf(Registration(email, request).message) == "REGISTRATION"
  {
    TwoFieldLineReadsBack("REGISTRATION", true, Field("user", Masked(Some(email))), Field("ip", RequestAddress(request)));
  }

  lemma MfaEventReadsBack(email: string, request: Option<Request>, eventType: string, success: bool)
    ensures EventOf(MfaEvent(email, eventType, request, success).message) == MfaEventName(eventType)
  {
    TwoFieldLineReadsBack(MfaEventName(eventType), success, Field("user", Masked(Some(email))), Field("ip", RequestAddress(request)));
  }

  lemma AdminActionReadsBack(email: string, request: Option<Request>, action: string, details: string)
    ensures EventOf(AdminAction(action, email, details, request).message) == AdminActionName(action)
  {
    ThreeFieldLineReadsBack(AdminActionName(action), true, Field("user", Masked(Some(email))), Field("ip", RequestAddress(request)),
                            Field("details", Some(details)));
  }

  /** The login helpers' lines name their events, so the log can be searched by event. */
  lemma LoginLinesNameTheirEvents(email: string, request: Option<Request>, isAdmin: bool, reason: string)
    ensures EventOf(LoginSuccess(email, request, isAdmin).message) == if isAdmin then "ADMIN_LOGIN" else "LOGIN_SUCCESS"
    ensures EventOf(LoginFailed(email, request, reason).message) == "LOGIN_FAILED"
  {
    LoginSuccessReadsBack(email, request, isAdmin);
    LoginFailedReadsBack(email, request, reason);
  }

  /** The lockout and registration lines name their events. */
  lemma AccountLinesNameTheirEvents(email: string, request: Option<Request>)
    ensures EventOf(AccountLocked(email, request).message) == "ACCOUNT_LOCKED"
    ensures EventOf(Registration(email, request).message) == "REGISTRATION"
  {
    AccountLockedReadsBack(email, request);
    RegistrationReadsBack(email, request);
  }

  /** The code and administrator lines name the event their mapping chose. */
  lemma MappedLinesNameTheirEvents(email: string, request: Option<Request>, eventType: string, success: bool,
                                   action: string, details: string)
    ensures EventOf(MfaEvent(email, eventType, request, success).message) == MfaEventName(eventType)
    ensures EventOf(AdminAction(action, email, details, request).message) == AdminActionName(action)
  {
    MfaEventReadsBack(email, request, eventType, success);
    AdminActionReadsBack(email, request, action, details);
  }

  /**
   * Failed logins for two addresses that differ only in the hidden middle
   * of the local part leave identical lines.
   */
  lemma FailedLoginHidesAddress(a: string, b: string, request: Option<Request>, reason: string)
    requires '@' in a && '@' in b
    requires var i := LastIndex(a, '@').value; var j := LastIndex(b, '@').value;
      i == j && a[i..] == b[i..] && (i <= 2 || (a[0] == b[0] && a[i - 1] == b[i - 1]))
    ensures LoginFailed(a, request, reason) == LoginFailed(b, request, reason)
  {
    MaskHidesMiddle(a, b);
  }
}
