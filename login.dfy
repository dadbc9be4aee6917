/** One login attempt (`login_campus_network`): build the URL, send the GET,
    then judge the attempt by the portal's reply and by a fresh reachability
    probe. Everything the attempt learns from the outside world is an input
    (`AttemptEnv`); every toast it raises is returned as a `Notice`. */
module Login {
  import opened Wrappers
  import Text
  import Probe
  import Portal

  /** A tray notification: title and message. */
  datatype Notice = Notice(title: string, message: string)

  /** The outcome of `requests.get` on the login URL: the reply body, or the
      text of the exception it raised. */
  datatype GetResult = Body(text: string) | Failed(error: string)

  /** What one attempt observes: the local IPv4 address (empty when the
      socket trick failed), the resolver's IPv6 answer (`None` when it
      raised), the GET's outcome, and the outcomes of the probe the attempt
      runs after the GET. */
  datatype AttemptEnv = AttemptEnv(
    ipv4: string,
    ipv6Lookup: Option<seq<string>>,
    response: GetResult,
    reprobe: Probe.ProbeRound)

  /** What an attempt did: its boolean result, the URL it sent a GET to (if
      any), and the notices it raised, in order. */
  datatype Report = Report(success: bool, request: Option<string>, notices: seq<Notice>)

  const StatusTitle := "校园网状态"
  const ErrorTitle := "错误"
  const IncompleteMessage := "登录信息不完整"
  const BothPassed := "登录成功"
  const PortalOnly := "登录成功，但联网检测未通过"
  const ProbeOnly := "联网正常，但登录返回检测未通过"
  const NonePassed := "登录失败"

  /** The notice for a GET that raised. */
  function ErrorNotice(error: string): Notice {
    Notice(StatusTitle, "登录错误: " + error)
  }

  /** The verdict on a completed GET: the attempt counts as a success
      exactly when the reply holds the marker or the probe passes; each of
      the four combinations of the two checks has its own message, and only a
      failure is announced as "登录失败". */
  function Verdict(contentOk: bool, netOk: bool): (v: (bool, string))
    ensures v.0 <==> contentOk || netOk
    ensures v.1 == NonePassed <==> !v.0
    ensures contentOk && netOk ==> v.1 == BothPassed
    ensures contentOk && !netOk ==> v.1 == PortalOnly
    ensures !contentOk && netOk ==> v.1 == ProbeOnly
  {
    if contentOk || netOk then
      if contentOk && !netOk then (true, PortalOnly)
      else if !contentOk && netOk then (true, ProbeOnly)
      else (true, BothPassed)
    else (false, NonePassed)
  }

  /** `login_campus_network(marker)`. Every attempt raises exactly one
      notice; a request is sent exactly when the login information is
      complete; and only an attempt whose GET returned a reply can succeed. */
  function LoginCampusNetwork(creds: Portal.Credentials, marker: string, env: AttemptEnv): (r: Report)
    ensures |r.notices| == 1
    ensures r.request.Some? <==> Portal.Complete(creds)
    ensures r.success ==> Portal.Complete(creds) && env.response.Body?
  {
    match Portal.GenerateSignParameter(creds, env.ipv4, Probe.LocalIpv6(env.ipv6Lookup))
    case None => Report(false, None, [Notice(ErrorTitle, IncompleteMessage)])
    case Some(url) =>
      match env.response
      case Failed(error) => Report(false, Some(url), [ErrorNotice(error)])
      case Body(text) =>
        var v := Verdict(Text.Contains(text, marker), Probe.IsConnected(env.reprobe));
        Report(v.0, Some(url), [Notice(StatusTitle, v.1)])
  }

  /** The verdict's message tells the four combinations of the two checks
      apart. */
  lemma VerdictSpec(contentOk: bool, netOk: bool, contentOk': bool, netOk': bool)
    ensures Verdict(contentOk, netOk).1 == Verdict(contentOk', netOk').1
            ==> contentOk == contentOk' && netOk == netOk'
  {
  }

  /** Incomplete login information: the attempt fails, sends no request and
      raises exactly the "incomplete" notice. */
  lemma LoginRefusesIncomplete(creds: Portal.Credentials, marker: string, env: AttemptEnv)
    requires !Portal.Complete(creds)
    ensures LoginCampusNetwork(creds, marker, env)
         == Report(false, None, [Notice(ErrorTitle, IncompleteMessage)])
  {
  }

  /** Complete login information: the GET goes to the URL the builder
      produces from the observed addresses, and the attempt raises exactly
      one notice. */
  lemma LoginRequestsBuiltUrl(creds: Portal.Credentials, marker: string, env: AttemptEnv)
    requires Portal.Complete(creds)
    ensures var r := LoginCampusNetwork(creds, marker, env);
      && r.request == Portal.GenerateSignParameter(creds, env.ipv4, Probe.LocalIpv6(env.ipv6Lookup))
      && r.request.Some?
      && |r.notices| == 1
      && r.notices[0].title == StatusTitle
  {
  }

  /** The attempt succeeds exactly when the information is complete, the GET
      returned a body, and the body holds the marker or the probe passes. */
  lemma LoginSuccessIff(creds: Portal.Credentials, marker: string, env: AttemptEnv)
    ensures LoginCampusNetwork(creds, marker, env).success
        <==> && Portal.Complete(creds)
             && env.response.Body?
             && (Text.Contains(env.response.text, marker) || Probe.IsConnected(env.reprobe))
  {
    if Portal.Complete(creds) && env.response.Body? {
      VerdictSpec(Text.Contains(env.response.text, marker), Probe.IsConnected(env.reprobe), true, true);
    }
  }

  /** A GET that raised fails the attempt with the exception's text, whatever
      the probe would have said. */
  lemma LoginErrorFails(creds: Portal.Credentials, marker: string, env: AttemptEnv)
    requires Portal.Complete(creds) && env.response.Failed?
    ensures var r := LoginCampusNetwork(creds, marker, env);
      && !r.success
      && r.notices == [ErrorNotice(env.response.error)]
      && r.notices[0].message[..|"登录错误: "|] == "登录错误: "
  {
  }

  /** A reply holding the marker and a passing probe: the attempt succeeds
      and announces a plain "登录成功". */
  lemma LoginBothPassed(creds: Portal.Credentials, marker: string, env: AttemptEnv)
    requires Portal.Complete(creds) && env.response.Body?
    requires Text.Contains(env.response.text, marker) && Probe.IsConnected(env.reprobe)
    ensures var r := LoginCampusNetwork(creds, marker, env);
      r.success && r.notices == [Notice(StatusTitle, BothPassed)]
  {
  }

  /** A reply without the marker and a failing probe: the attempt fails and
      announces "登录失败". */
  lemma LoginNonePassed(creds: Portal.Credentials, marker: string, env: AttemptEnv)
    requires Portal.Complete(creds) && env.response.Body?
    requires !Text.Contains(env.response.text, marker) && !Probe.IsConnected(env.reprobe)
    ensures var r := LoginCampusNetwork(creds, marker, env);
      !r.success && r.notices == [Notice(StatusTitle, NonePassed)]
  {
  }

  /** A reply holding the marker makes the attempt succeed even when the
      probe fails, and the notice then says the probe did not pass. */
  lemma LoginPortalOnly(creds: Portal.Credentials, marker: string, env: AttemptEnv)
    requires Portal.Complete(creds) && env.response.Body?
    requires Text.Contains(env.response.text, marker) && !Probe.IsConnected(env.reprobe)
    ensures var r := LoginCampusNetwork(creds, marker, env);
      r.success && r.notices == [Notice(StatusTitle, PortalOnly)]
  {
  }

  /** A passing probe makes the attempt succeed even when the reply lacks the
      marker, and the notice then says the reply check did not pass. */
  lemma LoginProbeOnly(creds: Portal.Credentials, marker: string, env: AttemptEnv)
    requires Portal.Complete(creds) && env.response.Body?
    requires !Text.Contains(env.response.text, marker) && Probe.IsConnected(env.reprobe)
    ensures var r := LoginCampusNetwork(creds, marker, env);
      r.success && r.notices == [Notice(StatusTitle, ProbeOnly)]
  {
  }
}
