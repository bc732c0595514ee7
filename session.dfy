/** MFA device lookup and session-token issue of awsmfalogin.py
    (`get_mfa_arn`, `get_session_token`). The identity and session services
    are not called: what they answer is given to each operation. */
module Session {
  import opened Results
  import opened Text
  import opened CredentialFile

  /** `DURATION_SECONDS`: twelve hours. */
  const DurationSeconds: nat := 43200

  /** `re.match('^\d{6}$', code)`: six digits at the start, then the end of
      the text or a newline that ends it (`$` matches there too). */
  predicate IsTokenCode(code: string) {
    6 <= |code| <= 7 && AllDigits(code[..6]) && (|code| == 7 ==> code[6] == '\n')
  }

  /** The answer to the prompt never holds a newline (`raw_input` drops it);
      for such text the test accepts exactly six ASCII digits. */
  lemma TokenCodeIsSixDigits(code: string)
    requires '\n' !in code
    ensures IsTokenCode(code) <==> |code| == 6 && AllDigits(code)
  {
    if |code| == 7 {
      assert code[6] in code;
    }
    if |code| == 6 {
      assert code[..6] == code;
    }
  }

  lemma TokenCodeExamples()
    ensures IsTokenCode("123456")
    ensures !IsTokenCode("12345") && !IsTokenCode("1234567") && !IsTokenCode("12a456") && !IsTokenCode("")
  {
    assert "123456"[..6] == "123456";
    assert "12a456"[..6][2] == 'a';
    assert "1234567"[6] == '7';
  }

  /** The part of a `get_session_token` response the script reads. */
  datatype Credentials = Credentials(accessKeyId: string, secretAccessKey: string, sessionToken: string)

  /** The arguments of the `get_session_token` call. */
  datatype SessionRequest = SessionRequest(durationSeconds: nat, serialNumber: string, tokenCode: string)

  /** What the session service answers: credentials, or an exception (a
      wrong or expired code, among others). */
  datatype Reply = Granted(credentials: Credentials) | Denied

  /** The `mfa-<profile>` credentials section built from an issued session
      (awsmfalogin.py:146-149). */
  function IssuedRecord(c: Credentials): (r: Section)
    ensures r.Keys == {"aws_access_key_id", "aws_secret_access_key", "aws_session_token", "aws_security_token"}
    ensures r["aws_access_key_id"] == c.accessKeyId && r["aws_secret_access_key"] == c.secretAccessKey
    ensures r["aws_session_token"] == c.sessionToken && r["aws_security_token"] == r["aws_session_token"]
  {
    map[
      "aws_access_key_id" := c.accessKeyId,
      "aws_secret_access_key" := c.secretAccessKey,
      "aws_session_token" := c.sessionToken,
      "aws_security_token" := c.sessionToken]
  }

  /** What one pass of the code prompt comes to. */
  datatype Attempt =
    | Malformed          // not six digits: asked again, nothing sent
    | Rejected           // the service refused the code: asked again
    | Accepted(record: Section)

  /** One pass of the code prompt of `get_session_token`
      (awsmfalogin.py:139-155): the request it sends, if any, and its outcome,
      where `reply` is what the service would answer. */
  function TokenAttempt(serial: string, code: string, reply: Reply): (r: (Option<SessionRequest>, Attempt))
    ensures r.0 == None <==> !IsTokenCode(code)
    ensures r.0.Some? ==> r.0.value == SessionRequest(43200, serial, code)
    ensures r.1.Accepted? <==> IsTokenCode(code) && reply.Granted?
    ensures r.1.Malformed? <==> !IsTokenCode(code)
    ensures r.1.Accepted? ==> r.1.record == IssuedRecord(reply.credentials)
  {
    if !IsTokenCode(code) then (None, Malformed)
    else
      var request := SessionRequest(DurationSeconds, serial, code);
      match reply
      case Denied => (Some(request), Rejected)
      case Granted(c) => (Some(request), Accepted(IssuedRecord(c)))
  }

  /** An answer that ends the prompt: a well-formed code the service accepts. */
  predicate Accepts(answer: (string, Reply)) {
    IsTokenCode(answer.0) && answer.1.Granted?
  }

  /** The requests sent for `answers`: one per well-formed code, in order. */
  function RequestsFor(serial: string, answers: seq<(string, Reply)>): seq<SessionRequest>
    decreases |answers|
  {
    if answers == [] then []
    else RequestsFor(serial, answers[..|answers| - 1]) + TokenAttempt(serial, answers[|answers| - 1].0, answers[|answers| - 1].1).0.ToSeq()
  }

  /** Every request asks for a twelve-hour session with the profile's device,
      and there is one per well-formed code, none for the others. */
  lemma {:induction false} RequestsForShape(serial: string, answers: seq<(string, Reply)>)
    ensures forall r :: r in RequestsFor(serial, answers) ==>
      r.durationSeconds == 43200 && r.serialNumber == serial && IsTokenCode(r.tokenCode)
    ensures |RequestsFor(serial, answers)| <= |answers|
    ensures (forall i :: 0 <= i < |answers| ==> !IsTokenCode(answers[i].0)) ==> RequestsFor(serial, answers) == []
    decreases |answers|
  {
    if answers != [] {
      var n := |answers| - 1;
      RequestsForShape(serial, answers[..n]);
    }
  }

  /** The prompt loop of `get_session_token` for one profile
      (awsmfalogin.py:138-155), driven by the answers typed and what the
      service answers to each: it stops at the first accepted code, having
      sent one request per well-formed code up to it. With no accepted code
      among the answers it is still prompting. */
  method PromptForToken(serial: string, answers: seq<(string, Reply)>)
    returns (requests: seq<SessionRequest>, record: Option<Section>)
    ensures record.None? <==> forall i :: 0 <= i < |answers| ==> !Accepts(answers[i])
    ensures record.None? ==> requests == RequestsFor(serial, answers)
    ensures record.Some? ==>
      exists i :: 0 <= i < |answers| && Accepts(answers[i]) &&
        (forall j :: 0 <= j < i ==> !Accepts(answers[j])) &&
        record.value == IssuedRecord(answers[i].1.credentials) &&
        requests == RequestsFor(serial, answers[..i + 1])
  {
    requests := [];
    record := None;
    var i := 0;
    while i < |answers| && record.None?
      invariant 0 <= i <= |answers|
      invariant requests == RequestsFor(serial, answers[..i])
      invariant record.None? ==> forall j :: 0 <= j < i ==> !Accepts(answers[j])
      invariant record.Some? ==>
        0 < i && Accepts(answers[i - 1]) &&
        (forall j :: 0 <= j < i - 1 ==> !Accepts(answers[j])) &&
        record.value == IssuedRecord(answers[i - 1].1.credentials)
    {
      var (code, reply) := answers[i];
      var (request, outcome) := TokenAttempt(serial, code, reply);
      assert answers[..i + 1][..i] == answers[..i];
      if request.Some? {
        requests := requests + [request.value];
      }
      if outcome.Accepted? {
        record := Some(outcome.record);
      }
      i := i + 1;
    }
    assert answers[..|answers|] == answers;
  }

  // ---------------------------------------------------------------------
  // The MFA device of each profile

  /** The two conditions on which the script stops with `quit(0)`. */
  datatype Fatal = NoMfaDevice(profile: string) | NoCredentials(profile: string)

  /** `user_mfa_device[0]['SerialNumber']`, or the stop when the user has no
      device (awsmfalogin.py:113-117). */
  function FirstDevice(profile: string, serials: seq<string>): (r: Result<string, Fatal>)
    ensures r.Ok? <==> serials != []
    ensures r.Ok? ==> r.value == serials[0]
    ensures r.Err? ==> r.error == NoMfaDevice(profile)
  {
    if serials == [] then Err(NoMfaDevice(profile)) else Ok(serials[0])
  }

  /** The loop of `get_mfa_arn` (awsmfalogin.py:107-121). `devices` maps a
      profile whose credentials the identity service accepts to its list of
      MFA device serials; a profile it does not map has no usable credentials. */
  method ResolveSerials(profiles: seq<string>, devices: map<string, seq<string>>)
    returns (r: Result<map<string, string>, Fatal>)
    ensures r.Ok? <==> forall p :: p in profiles ==> p in devices && devices[p] != []
    ensures r.Ok? ==> r.value.Keys == (set p | p in profiles)
    ensures r.Ok? ==> forall p :: p in r.value ==> r.value[p] == devices[p][0]
    ensures r.Err? ==>
      exists k :: 0 <= k < |profiles| &&
        (forall j :: 0 <= j < k ==> profiles[j] in devices && devices[profiles[j]] != []) &&
        !(profiles[k] in devices && devices[profiles[k]] != []) &&
        r.error == (if profiles[k] in devices then NoMfaDevice(profiles[k]) else NoCredentials(profiles[k]))
  {
    var arns: map<string, string> := map[];
    for k := 0 to |profiles|
      invariant forall j :: 0 <= j < k ==> profiles[j] in devices && devices[profiles[j]] != []
      invariant arns.Keys == set j | 0 <= j < k :: profiles[j]
      invariant forall p :: p in arns ==> arns[p] == devices[p][0]
    {
      var p := profiles[k];
      if p !in devices {
        return Err(NoCredentials(p));
      }
      var first := FirstDevice(p, devices[p]);
      if first.Err? {
        return Err(first.error);
      }
      arns := arns[p := first.value];
    }
    assert forall p :: p in profiles ==> exists j :: 0 <= j < |profiles| && profiles[j] == p;
    return Ok(arns);
  }
}
