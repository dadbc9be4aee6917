/** The credential store and the portal login-URL builder
    (`generate_sign_parameter`). The local IPv4 and IPv6 addresses, which the
    program learns from sockets, are parameters here. */
module Portal {
  import opened Wrappers
  import opened Cipher
  import opened Query
  import Text

  /** The process-wide `username`, `password` and `login_IP`. */
  datatype Credentials = Credentials(username: string, password: string, loginIP: string)

  /** What the program starts with before any configuration is read. */
  const NoCredentials := Credentials("", "", "")

  /** A login may be attempted only when both username and password are set;
      the host is not checked. */
  predicate Complete(c: Credentials) {
    c.username != "" && c.password != ""
  }

  /** The portal's login endpoint on the configured host. */
  function LoginEndpoint(host: string): string {
    "https://" + host + ":802/eportal/portal/login"
  }

  /** The protocol's fixed callback id and login method, the first two
      parameters of every login request. */
  const Callback := Param("callback", "726427262623")
  const Method := Param("login_method", "27")

  /** The fixed head of every login URL,
      `https://{host}:802/eportal/portal/login?callback=726427262623&login_method=27&`. */
  function LoginPrefix(host: string): string {
    LoginEndpoint(host) + "?" + Render(Callback) + "&" + Render(Method) + "&"
  }

  /** The leading parameters of the login request: callback id and method,
      then the four encrypted fields. */
  function HeadParams(account: string, pwd: string, ip4: string, ip6: string): seq<Param> {
    [ Callback, Method,
      Param("user_account", account), Param("user_password", pwd),
      Param("wlan_user_ip", ip4), Param("wlan_user_ipv6", ip6) ]
  }

  /** The fixed protocol constants that follow them (MAC placeholder, VLAN
      id, AC fields, version, terminal type, language and page tokens), as
      the program writes them. */
  const FixedTail: string :=
    "wlan_user_mac=262626262626262626262626&wlan_vlan_id=26&wlan_ac_ip="
    + "&wlan_ac_name=&authex_enable=&jsVersion=2238243824&login_ip_type=26&terminal_type=27"
    + "&lang=6c7e3b7578&program_index=79225954737327212323222f212e2723"
    + "&page_index=755e577b7c4e27212323222f212e2320&encrypt=1&v=692&lang=zh"

  /** The query string of the login request. */
  function LoginQuery(account: string, pwd: string, ip4: string, ip6: string): string {
    Join(HeadParams(account, pwd, ip4, ip6)) + "&" + FixedTail
  }

  /** The encrypted IPv6 field: empty when there is no global IPv6 address. */
  function Ipv6Field(ipv6: string): string {
    if ipv6 != "" then Encrypted(ipv6) else ""
  }

  /** `generate_sign_parameter`: `None` when the credentials are incomplete,
      otherwise the login URL carrying the encrypted account (`",0,"` +
      username), password and addresses. */
  function GenerateSignParameter(creds: Credentials, ipv4: string, ipv6: string): (r: Option<string>)
    ensures r.None? <==> !Complete(creds)
  {
    if creds.username == "" || creds.password == "" then None
    else
      var account := Encrypted(",0," + creds.username);
      var pwd := Encrypted(creds.password);
      var ip4 := Encrypted(ipv4);
      var ip6 := Ipv6Field(ipv6);
      Some(LoginEndpoint(creds.loginIP) + "?" + LoginQuery(account, pwd, ip4, ip6))
  }

  /** The part of a URL after `LoginEndpoint(host) + "?"`, if it has that
      shape. */
  function QueryAfter(url: string, host: string): Option<string> {
    var head := LoginEndpoint(host) + "?";
    if Text.StartsWith(url, head) then Some(url[|head|..]) else None
  }

  /** Ciphertext never contains the parameter separator. */
  lemma EncryptedHasNoSeparator(data: string)
    ensures '&' !in Encrypted(data)
  {
    EncryptedIsHex(data);
    assert !IsHexDigit('&');
  }

  /** The two fixed parameters are well formed. */
  lemma FixedParamsWellFormed()
    ensures WellFormed(Callback) && WellFormed(Method)
  {
  }

  /** The names of the account and password fields hold no separator. */
  lemma CredentialKeysClean()
    ensures '&' !in "user_account" && '=' !in "user_account"
    ensures '&' !in "user_password" && '=' !in "user_password"
  {
  }

  /** The names of the address fields hold no separator. */
  lemma AddressKeysClean()
    ensures '&' !in "wlan_user_ip" && '=' !in "wlan_user_ip"
    ensures '&' !in "wlan_user_ipv6" && '=' !in "wlan_user_ipv6"
  {
  }

  /** The leading parameters are well formed whenever the four field values
      are free of `&`. */
  lemma HeadParamsWellFormed(account: string, pwd: string, ip4: string, ip6: string)
    requires '&' !in account && '&' !in pwd && '&' !in ip4 && '&' !in ip6
    ensures var h := HeadParams(account, pwd, ip4, ip6);
            forall i :: 0 <= i < |h| ==> WellFormed(h[i])
  {
    FixedParamsWellFormed();
    CredentialKeysClean();
    AddressKeysClean();
  }

  /** The joined leading parameters open with the callback id and method. */
  lemma HeadJoin(account: string, pwd: string, ip4: string, ip6: string)
    ensures var h := HeadParams(account, pwd, ip4, ip6);
            Join(h) == Render(Callback) + "&" + Render(Method) + "&" + Join(h[2..])
  {
    var h := HeadParams(account, pwd, ip4, ip6);
    var j2 := Join(h[2..]);
    assert h[1..][1..] == h[2..];
    assert Join(h) == Render(h[0]) + "&" + Join(h[1..]);
    assert Join(h[1..]) == Render(h[1]) + "&" + j2;
    calc {
      Join(h);
      Render(Callback) + "&" + (Render(Method) + "&" + j2);
      { Text.AppendAssoc(Render(Callback) + "&", Render(Method) + "&", j2); }
      Render(Callback) + "&" + (Render(Method) + "&") + j2;
      { Text.AppendAssoc(Render(Callback) + "&", Render(Method), "&"); }
      Render(Callback) + "&" + Render(Method) + "&" + j2;
    }
  }

  /** What follows the endpoint's `?` is the query. */
  lemma UrlQuery(host: string, q: string)
    ensures QueryAfter(LoginEndpoint(host) + "?" + q, host) == Some(q)
  {
    var head := LoginEndpoint(host) + "?";
    assert (head + q)[..|head|] == head;
    assert (head + q)[|head|..] == q;
  }

  /** Whatever the fields and the tail, the URL opens with the fixed prefix. */
  lemma UrlPrefix(host: string, account: string, pwd: string, ip4: string, ip6: string, rest: string)
    ensures var q := Join(HeadParams(account, pwd, ip4, ip6)) + "&" + rest;
            Text.StartsWith(LoginEndpoint(host) + "?" + q, LoginPrefix(host))
  {
    var h := HeadParams(account, pwd, ip4, ip6);
    var q := Join(h) + "&" + rest;
    var head := LoginEndpoint(host) + "?";
    var url := head + q;
    var j2 := Join(h[2..]);
    var lit := Render(Callback) + "&" + Render(Method) + "&";
    HeadJoin(account, pwd, ip4, ip6);
    var prefix := LoginPrefix(host);
    calc {
      url;
      head + (lit + j2 + "&" + rest);
      { Text.AppendAssoc(lit + j2, "&", rest); Text.AppendAssoc(lit, j2, "&" + rest); }
      head + (lit + (j2 + "&" + rest));
      { Text.AppendAssoc(head, lit, j2 + "&" + rest); }
      head + lit + (j2 + "&" + rest);
    }
    assert head + lit == prefix;
    assert url[..|prefix|] == prefix;
  }

  /** A parsed query that opens with the leading parameters yields each of
      the four fields by name: the account, */
  lemma LookupAccount(ps: seq<Param>, account: string, pwd: string, ip4: string, ip6: string)
    requires |ps| >= 6 && ps[..6] == HeadParams(account, pwd, ip4, ip6)
    ensures Lookup(ps, "user_account") == Some(account)
  {
    assert forall j :: 0 <= j <= 2 ==> ps[j] == HeadParams(account, pwd, ip4, ip6)[j];
    LookupFirst(ps, "user_account", 2);
  }

  /** ... the password, */
  lemma LookupPassword(ps: seq<Param>, account: string, pwd: string, ip4: string, ip6: string)
    requires |ps| >= 6 && ps[..6] == HeadParams(account, pwd, ip4, ip6)
    ensures Lookup(ps, "user_password") == Some(pwd)
  {
    assert forall j :: 0 <= j <= 3 ==> ps[j] == HeadParams(account, pwd, ip4, ip6)[j];
    LookupFirst(ps, "user_password", 3);
  }

  /** ... the IPv4 address, */
  lemma LookupIpv4(ps: seq<Param>, account: string, pwd: string, ip4: string, ip6: string)
    requires |ps| >= 6 && ps[..6] == HeadParams(account, pwd, ip4, ip6)
    ensures Lookup(ps, "wlan_user_ip") == Some(ip4)
  {
    assert forall j :: 0 <= j <= 4 ==> ps[j] == HeadParams(account, pwd, ip4, ip6)[j];
    LookupFirst(ps, "wlan_user_ip", 4);
  }

  /** ... and the IPv6 address. */
  lemma LookupIpv6(ps: seq<Param>, account: string, pwd: string, ip4: string, ip6: string)
    requires |ps| >= 6 && ps[..6] == HeadParams(account, pwd, ip4, ip6)
    ensures Lookup(ps, "wlan_user_ipv6") == Some(ip6)
  {
    assert forall j :: 0 <= j <= 5 ==> ps[j] == HeadParams(account, pwd, ip4, ip6)[j];
    LookupFirst(ps, "wlan_user_ipv6", 5);
  }

  /** The URL builder's promise for complete credentials: the URL starts
      with the fixed endpoint and callback/method prefix, and its query
      reads back with the account field `encrypt_data(",0," + username)`, the
      password field `encrypt_data(password)`, the IPv4 field
      `encrypt_data(ipv4)` and the IPv6 field `encrypt_data(ipv6)`, which is
      empty exactly when no IPv6 address was found. (The refusal of incomplete credentials is the
      builder's own postcondition.) */
  lemma {:induction false} GenerateSignParameterFields(creds: Credentials, ipv4: string, ipv6: string)
    requires Complete(creds)
    ensures var r := GenerateSignParameter(creds, ipv4, ipv6);
      && r.Some?
      && Text.StartsWith(r.value, LoginPrefix(creds.loginIP))
      && QueryAfter(r.value, creds.loginIP).Some?
      && var ps := Parse(QueryAfter(r.value, creds.loginIP).value);
      && Lookup(ps, "user_account") == Some(Encrypted(",0," + creds.username))
      && Lookup(ps, "user_password") == Some(Encrypted(creds.password))
      && Lookup(ps, "wlan_user_ip") == Some(Encrypted(ipv4))
      && Lookup(ps, "wlan_user_ipv6") == Some(Encrypted(ipv6))
  {
    var account, pwd := Encrypted(",0," + creds.username), Encrypted(creds.password);
    var ip4, ip6 := Encrypted(ipv4), Ipv6Field(ipv6);
    var h := HeadParams(account, pwd, ip4, ip6);
    var rest := FixedTail;
    UrlPrefix(creds.loginIP, account, pwd, ip4, ip6, rest);
    UrlQuery(creds.loginIP, Join(h) + "&" + rest);
    EncryptedHasNoSeparator(",0," + creds.username);
    EncryptedHasNoSeparator(creds.password);
    EncryptedHasNoSeparator(ipv4);
    EncryptedHasNoSeparator(ipv6);
    HeadParamsWellFormed(account, pwd, ip4, ip6);
    ParseJoinThen(h, rest);
    var ps := Parse(Join(h) + "&" + rest);
    assert ps[..6] == h;
    LookupAccount(ps, account, pwd, ip4, ip6);
    LookupPassword(ps, account, pwd, ip4, ip6);
    LookupIpv4(ps, account, pwd, ip4, ip6);
    assert ip6 == Encrypted(ipv6) by {
      if ipv6 == "" {
        EncryptedEmpty();
      }
    }
    LookupIpv6(ps, account, pwd, ip4, ip6);
  }

  /** The merge of `handle_param_dialog`: an edited field replaces the stored
      one only when it is non-empty. */
  function MergeCredentials(current: Credentials, edited: Credentials): (m: Credentials)
    ensures m.username == "" <==> current.username == "" && edited.username == ""
    ensures m.password == "" <==> current.password == "" && edited.password == ""
    ensures m.loginIP == "" <==> current.loginIP == "" && edited.loginIP == ""
  {
    Credentials(
      if edited.username != "" then edited.username else current.username,
      if edited.password != "" then edited.password else current.password,
      if edited.loginIP != "" then edited.loginIP else current.loginIP)
  }

  /** Each merged field is the edited value when that is non-empty and the
      stored value otherwise; submitting all-empty fields changes nothing. */
  lemma MergeFields(current: Credentials, edited: Credentials)
    ensures var m := MergeCredentials(current, edited);
      && (edited.username != "" ==> m.username == edited.username)
      && (edited.username == "" ==> m.username == current.username)
      && (edited.password != "" ==> m.password == edited.password)
      && (edited.password == "" ==> m.password == current.password)
      && (edited.loginIP != "" ==> m.loginIP == edited.loginIP)
      && (edited.loginIP == "" ==> m.loginIP == current.loginIP)
    ensures MergeCredentials(current, NoCredentials) == current
  {
  }

  /** An edit can never blank a field: once the login information is
      complete, no later edit makes the URL builder refuse. */
  lemma MergeKeepsComplete(current: Credentials, edited: Credentials)
    requires Complete(current)
    ensures Complete(MergeCredentials(current, edited))
    ensures GenerateSignParameter(MergeCredentials(current, edited), "", "").Some?
  {
  }

  /** Submitting the same dialog twice has the effect of submitting it once. */
  lemma MergeIdempotent(current: Credentials, edited: Credentials)
    ensures MergeCredentials(MergeCredentials(current, edited), edited)
         == MergeCredentials(current, edited)
  {
  }
}
