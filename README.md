# CampusNet Guardian heartbeat core, in Dafny

This project models the non-GUI core of the campus-network login assistant
`heartbeat_login_pyqt.py`. The assistant keeps a campus network session
alive. It probes a few public sites to see whether the network is up. When
it is down, it logs in to the campus portal by sending an HTTP GET. The
URL of that request carries the obfuscated account, password and local
addresses. It retries up to `max_attempts` times and reports progress as
tray notifications. A countdown shows the time left until the next check.

The project's modules follow the program's parts:

- `Text`: the substring test and the decimal rendering the program's
  f-strings and `in` checks rely on.
- `Cipher`: `encrypt_data`, which XORs each character code with 22 and
  prints it as upper-case hex padded to at least two digits. It comes with a
  decoder that inverts it.
- `Query`: the `key=value&...` layout of the login query. It comes with a
  parser used to read back what the builder wrote. The program has no such
  parser: it is a reference reader with no counterpart in the source, and
  its own helpers (`Query.IndexOf`, `Query.LookupFirst`) have no row below.
- `Portal`: the login information (`username`, `password`, `login_IP`),
  `generate_sign_parameter`, and the merge done by the settings dialog.
- `Probe`: `is_connected` and the address filter of `get_local_ipv6`.
- `Login`: `login_campus_network`, which returns its result together with
  the notices it raises.
- `Monitor`: the `network_monitor` state machine and the `update_countdown`
  tick, as functions of the state before a step.
- `Guardian`: the class `CampusAssistant`. It holds the program's mutable
  globals, and its methods update them in place. Each method is proved to
  produce the state that the matching `Monitor` or `Portal` function
  computes.

Everything the program learns from the outside world is an input:

- the outcomes of the HEAD probes;
- the socket's IPv4 address;
- the resolver's IPv6 answers;
- the GET's reply or exception.

The monitor sees these through an `Env`. `Monitor.CampusEnv` is the
program's own `Env`: in it, every login attempt is
`Login.LoginCampusNetwork` run with the reply marker `"成功"`.

## Model

| member | source | states |
|---|---|---|
| Cipher.EncryptData | heartbeat_login_pyqt.py:279-286 | The character loop builds exactly the ciphertext `Encrypted(data)`, whose properties are the lemmas below. |
| Cipher.Encrypted | heartbeat_login_pyqt.py:279-286 | `encrypt_data` as a value, the characters' chunks in order: at least two output characters per input character, and empty exactly for empty input. |
| Cipher.Chunk | heartbeat_login_pyqt.py:282-285 | One character's output, `format(ord(c) ^ 22, '02X')`: at least two upper-case hex digits, and exactly two exactly when the character is below U+0100. |
| Cipher.EncryptedChunks | heartbeat_login_pyqt.py:279-286 | For text whose character codes are below 256, the ciphertext is twice as long, and characters 2i and 2i+1 are the two-digit hex of `code(data[i]) xor 22`. |
| Cipher.WideCharChunk | heartbeat_login_pyqt.py:282-285 | A character at U+0100 or above yields more than two hex digits, because XOR with 22 keeps its code at 256 or more and `02X` only pads, never truncates; text starting with such a character encrypts to more than twice its length. |
| Cipher.EncryptedIsHex | heartbeat_login_pyqt.py:279-286 | Every character of any ciphertext is an upper-case hex digit. |
| Cipher.EncryptedEmpty | heartbeat_login_pyqt.py:279-286 | The empty string encrypts to the empty string. |
| Cipher.EncryptedConcat | heartbeat_login_pyqt.py:281-285 | Encryption works character by character: the ciphertext of a concatenation is the concatenation of the ciphertexts. |
| Cipher.EncryptedCons | heartbeat_login_pyqt.py:281-285 | A leading character contributes its own chunk in front of the rest's ciphertext. |
| Cipher.DecryptEncrypted | heartbeat_login_pyqt.py:279-286 | On text with character codes below 256, decoding the ciphertext gives back the plaintext, so the obfuscation loses nothing. |
| Cipher.DecryptedPair | heartbeat_login_pyqt.py:282-284 | Decoding one two-digit chunk recovers its character. |
| Cipher.Decrypted | heartbeat_login_pyqt.py:279-286 | A successful decode has exactly half the length of its input. |
| Cipher.XorInvolution | heartbeat_login_pyqt.py:283 | XOR with the same value twice is the identity. |
| Cipher.Xor | heartbeat_login_pyqt.py:283 | Python's `^` on non-negative integers, bit by bit; the result never exceeds the sum of the operands. |
| Cipher.Xor22Involution | heartbeat_login_pyqt.py:283 | XOR with the key 22 undoes itself. |
| Cipher.Xor22 | heartbeat_login_pyqt.py:283 | XOR with 22 keeps a byte a byte. |
| Cipher.XorBound | heartbeat_login_pyqt.py:283 | XOR of two numbers below 2^k stays below 2^k. |
| Cipher.XorKeepsHigh | heartbeat_login_pyqt.py:283 | XOR of a number of at least 2^k with one below 2^k stays at least 2^k. |
| Cipher.XorSelf | heartbeat_login_pyqt.py:283 | A number XOR itself is 0. |
| Cipher.Hex02 | heartbeat_login_pyqt.py:284 | `format(n, '02X')`: at least two characters, all of them upper-case hex digits. |
| Cipher.Hex02Byte | heartbeat_login_pyqt.py:284 | `format(n, '02X')` for a byte is its two upper-case hex digits, high nibble first. |
| Cipher.Hex02Wide | heartbeat_login_pyqt.py:284 | For n of 256 or more, the formatted value is longer than two digits. |
| Cipher.Hex | heartbeat_login_pyqt.py:284 | Hex rendering is non-empty and made of hex digits. |
| Cipher.HexValue | heartbeat_login_pyqt.py:284 | A character has a hex value exactly when it is an upper-case hex digit, and that value renders back to the character. |
| Cipher.HexValueOfDigit | heartbeat_login_pyqt.py:284 | Reading a rendered hex digit gives back its value. |
| Cipher.EncryptedA | heartbeat_login_pyqt.py:279-286 | `encrypt_data("a")` is `"77"`. |
| Text.Decimal | heartbeat_login_pyqt.py:479-490 | The decimal rendering used by the f-strings is non-empty, all digits, and has no leading zero. |
| Text.DecimalRoundTrip | heartbeat_login_pyqt.py:479-490 | Reading the decimal rendering back gives the number. |
| Text.DecimalHasNo | heartbeat_login_pyqt.py:490 | A rendered number contains no non-digit character. |
| Query.ParseJoin | heartbeat_login_pyqt.py:318-324 | Parsing the `&`-joined `key=value` parameters returns exactly those parameters when no key contains `=` or `&` and no value contains `&`. |
| Query.ParseJoinThen | heartbeat_login_pyqt.py:318-324 | Parsing joined parameters followed by `&` and further text returns the parameters, then the parse of the rest. |
| Query.ParseJoinBefore | heartbeat_login_pyqt.py:318-324 | Parameters written one at a time, each followed by `&`, then a rest, parse as those parameters then the parse of the rest. |
| Query.ParseSplit | heartbeat_login_pyqt.py:318-324 | One rendered parameter before `&` parses as that parameter followed by the rest. |
| Query.JoinThenCons | heartbeat_login_pyqt.py:318-324 | A joined list of two or more parameters followed by `&` and a rest splits after its first parameter. |
| Query.ParseRender | heartbeat_login_pyqt.py:318-324 | A single rendered well-formed parameter parses back to itself. |
| Portal.GenerateSignParameter | heartbeat_login_pyqt.py:307-326 | The builder refuses (returns `None`) exactly when the username or the password is empty. The host is not checked. |
| Portal.GenerateSignParameterFields | heartbeat_login_pyqt.py:314-326 | With complete login information, the URL starts with `https://{login_IP}:802/eportal/portal/login?callback=726427262623&login_method=27&`. Its query reads back with `user_account = encrypt_data(",0," + username)`, `user_password = encrypt_data(password)` and `wlan_user_ip = encrypt_data(ipv4)` and `wlan_user_ipv6 = encrypt_data(ipv6)`, the empty string when there is no IPv6 address. |
| Portal.EncryptedHasNoSeparator | heartbeat_login_pyqt.py:314-324 | No ciphertext contains `&`, so an encrypted field cannot break the query apart. |
| Portal.HeadParamsWellFormed | heartbeat_login_pyqt.py:318-320 | The callback, method and four encrypted fields are well-formed query parameters. |
| Portal.HeadJoin | heartbeat_login_pyqt.py:318-320 | The joined head parameters begin with the fixed `callback=...&login_method=27&` text. |
| Portal.UrlPrefix | heartbeat_login_pyqt.py:318 | Whatever the fields, the URL begins with the endpoint on `login_IP` at port 802, then `?callback=726427262623&login_method=27&`. |
| Portal.UrlQuery | heartbeat_login_pyqt.py:318 | The part after `?` is exactly the query the builder wrote. |
| Portal.LookupAccount | heartbeat_login_pyqt.py:319 | `user_account` reads back as the encrypted account. |
| Portal.LookupPassword | heartbeat_login_pyqt.py:319 | `user_password` reads back as the encrypted password. |
| Portal.LookupIpv4 | heartbeat_login_pyqt.py:320 | `wlan_user_ip` reads back as the encrypted IPv4 address. |
| Portal.LookupIpv6 | heartbeat_login_pyqt.py:317-320 | `wlan_user_ipv6` reads back as the encrypted IPv6 field. |
| Portal.FixedParamsWellFormed | heartbeat_login_pyqt.py:318 | The callback and method parameters are well-formed. |
| Portal.CredentialKeysClean | heartbeat_login_pyqt.py:319 | The account and password keys contain neither `=` nor `&`. |
| Portal.AddressKeysClean | heartbeat_login_pyqt.py:320 | The address keys contain neither `=` nor `&`. |
| Portal.MergeFields | heartbeat_login_pyqt.py:527-532 | Each merged field is the edited value when that value is non-empty, and the stored value otherwise. An all-empty dialog changes nothing. |
| Portal.MergeKeepsComplete | heartbeat_login_pyqt.py:527-532 | An edit never blanks a field, so complete login information stays complete and the builder keeps producing a URL. |
| Portal.MergeIdempotent | heartbeat_login_pyqt.py:527-532 | Applying the same dialog twice has the effect of applying it once. |
| Portal.MergeCredentials | heartbeat_login_pyqt.py:527-532 | The merge of the settings dialog: a merged field is empty only when both the stored and the edited field are empty. |
| Probe.IsConnected | heartbeat_login_pyqt.py:373-383 | `is_connected` answers true exactly when some endpoint returns a 2xx status. |
| Probe.IsConnectedSpec | heartbeat_login_pyqt.py:373-383 | Over one outcome per endpoint of `TestUrls`, the probe sends requests up to and including the first 2xx endpoint and none after it, every earlier request failed, and it tries every endpoint when none passes. |
| Probe.IsConnectedIgnoresLater | heartbeat_login_pyqt.py:376-380 | Outcomes after the first passing probe change neither the answer nor the number of requests. |
| Probe.FirstSuccessIs | heartbeat_login_pyqt.py:376-380 | The scan stops at the first 2xx outcome. |
| Probe.FirstSuccess | heartbeat_login_pyqt.py:376-380 | The scan position is in range, every outcome before it failed, and the outcome at it passed. |
| Probe.FirstEligible | heartbeat_login_pyqt.py:299-302 | The filter position is in range, every candidate before it is link-local or loopback, and the candidate at it is neither. |
| Probe.LocalIpv6 | heartbeat_login_pyqt.py:297-305 | `get_local_ipv6`: the result is never link-local or loopback, and it is empty when the lookup raised. |
| Probe.LocalIpv6Spec | heartbeat_login_pyqt.py:297-305 | A non-empty result is the first eligible resolver answer. The result is eligible whenever some answer is, and empty when none is. |
| Probe.RejectsLinkLocalAndLoopback | heartbeat_login_pyqt.py:301 | `fe80::...` and `::1` are rejected, and a lookup that returns only these yields the empty string. |
| Login.Verdict | heartbeat_login_pyqt.py:395-405 | The verdict succeeds exactly when the reply check or the probe passed. Both passing is announced as "登录成功", the marker alone as "登录成功，但联网检测未通过", the probe alone as "联网正常，但登录返回检测未通过", and only a failure as "登录失败". |
| Login.VerdictSpec | heartbeat_login_pyqt.py:395-405 | The verdict's message tells the four combinations of the two checks apart. |
| Login.LoginCampusNetwork | heartbeat_login_pyqt.py:385-408 | Every attempt raises exactly one notice, a GET is sent exactly when username and password are set, and only an attempt whose GET returned a reply can succeed. |
| Login.LoginRefusesIncomplete | heartbeat_login_pyqt.py:385-389 | With incomplete login information, the attempt fails, sends no request, and raises only the "登录信息不完整" error notice. |
| Login.LoginRequestsBuiltUrl | heartbeat_login_pyqt.py:386-392 | With complete information, the GET goes to the URL the builder produced from the observed addresses, and exactly one status notice is raised. |
| Login.LoginSuccessIff | heartbeat_login_pyqt.py:385-408 | The attempt succeeds exactly when the information is complete, the GET returned a reply, and the reply contains the marker or the probe passes. |
| Login.LoginErrorFails | heartbeat_login_pyqt.py:406-408 | A GET that raised fails the attempt with a "登录错误: " notice carrying the exception text. |
| Login.LoginBothPassed | heartbeat_login_pyqt.py:400-402 | A reply with the marker and a passing probe is a success, announced as "登录成功". |
| Login.LoginNonePassed | heartbeat_login_pyqt.py:403-405 | A reply without the marker and a failing probe is a failure, announced as "登录失败". |
| Login.LoginPortalOnly | heartbeat_login_pyqt.py:395-397 | A reply with the marker but a failing probe is a success, announced as "登录成功，但联网检测未通过". |
| Login.LoginProbeOnly | heartbeat_login_pyqt.py:398-399 | A passing probe without the marker is a success, announced as "联网正常，但登录返回检测未通过". |
| Monitor.CampusEnvOneNotice | heartbeat_login_pyqt.py:480-481 | In the program's environment, every login attempt raises exactly one notice. |
| Monitor.RetryLoop | heartbeat_login_pyqt.py:477-487 | The inner loop keeps the login information and every earlier notice, and moves the probe and login positions only forward. |
| Monitor.Attempted | heartbeat_login_pyqt.py:478-481 | One attempt increments the counter and the login position, keeps the status, countdown and earlier notices, and raises the numbered "尝试登录 (k/max)" notice first. |
| Monitor.Reconnected | heartbeat_login_pyqt.py:482-487 | After a successful login whose follow-up probe passed, the state is back in its between-passes shape with the counter at 0, and "登录后网络已连接" is the last notice. |
| Monitor.GiveUpCheck | heartbeat_login_pyqt.py:488-491 | The check after the loop changes nothing while attempts remain. It never logs in, and it leaves the counter as it was or resets it to 0. |
| Monitor.Iteration | heartbeat_login_pyqt.py:469-492 | A pass probes at least once and keeps the login information and earlier notices. A pass that finds the network up sets the connected status and makes no login. |
| Monitor.Run | heartbeat_login_pyqt.py:469-492 | Any number of passes probe at least once each and keep the login information and earlier notices. |
| Monitor.NetworkMonitor | heartbeat_login_pyqt.py:459-492 | The monitor raises "开始网络监控" after the earlier notices, keeps the login information, and probes at least once per pass. |
| Monitor.Tick | heartbeat_login_pyqt.py:452-456 | One second of the countdown keeps it within [1, check_interval], and it moves only while the status contains "网络已连接". |
| Monitor.Ticks | heartbeat_login_pyqt.py:450-457 | Any number of seconds keep the countdown within [1, check_interval]. |
| Monitor.RetryLoopOutcome | heartbeat_login_pyqt.py:477-487 | The inner loop ends either reconnected (counter 0, status connected, countdown reset) or out of attempts (counter at `max_attempts`, status and countdown unchanged). It makes at most one login per remaining attempt and keeps the login information. |
| Monitor.FailedAttempt | heartbeat_login_pyqt.py:478-480 | A failed attempt appends the numbered attempt notice, then the attempt's own notice, and the loop goes on. |
| Monitor.AllAttemptsFail | heartbeat_login_pyqt.py:477-487 | When every login fails, the loop makes exactly one attempt per remaining count and runs no probe. It announces "尝试登录 (k/max)" before attempt k, for every k. |
| Monitor.AllAttemptsFailState | heartbeat_login_pyqt.py:477-487 | When every login fails, the loop ends with the counter at `max_attempts`, one login per remaining attempt, no probe, and status and countdown untouched. |
| Monitor.RetryLoopFailedRun | heartbeat_login_pyqt.py:477-480 | When every remaining login fails, the inner loop is exactly one failed attempt per remaining count, and nothing more. |
| Monitor.FailedRunLog | heartbeat_login_pyqt.py:478-480 | n failed attempts add two notices each, the numbered "尝试登录 (k/max)" notice first, and keep every earlier notice. |
| Monitor.RecoversAfter | heartbeat_login_pyqt.py:480-487 | After k failed logins, a successful login whose follow-up probe passes ends the loop reconnected after k + 1 logins, with "登录后网络已连接" as the last notice. |
| Monitor.ExhaustedPass | heartbeat_login_pyqt.py:476-491 | A disconnected pass in which every login fails makes `max_attempts` attempts. It ends with the exhaustion notice, the exhaustion status and the counter at 0 only when the final probe fails too; otherwise the counter stays at its maximum. |
| Monitor.IncompleteExhausts | heartbeat_login_pyqt.py:309-311 | With the program's environment and a missing username or password, a disconnected pass spends all attempts and, if the network stays down, ends exhausted. |
| Monitor.NoAttemptAtMax | heartbeat_login_pyqt.py:477 | A disconnected pass that starts with the counter left at `max_attempts` makes no login attempt. |
| Monitor.RecoveredPass | heartbeat_login_pyqt.py:470-487 | A disconnected pass that recovers after k failed logins ends connected with the counter at 0 and the countdown reset, after k + 1 attempts and two probes. |
| Monitor.IterationInvariant | heartbeat_login_pyqt.py:469-492 | One pass of the outer loop keeps the invariant: the counter is 0 or at its maximum, the status is one the program sets, and the countdown is within [1, check_interval]. |
| Monitor.RunInvariant | heartbeat_login_pyqt.py:469-492 | The invariant holds after any number of passes. |
| Monitor.MonitorBounded | heartbeat_login_pyqt.py:469-492 | From the initial globals (lines 183-190), the attempt counter never exceeds `max_attempts`, and the invariant holds however long the monitor runs. |
| Monitor.CountdownStatus | heartbeat_login_pyqt.py:453 | Among the statuses the program sets, only "网络已连接" passes the countdown's `in` test. |
| Monitor.TicksCycle | heartbeat_login_pyqt.py:450-457 | While connected, the countdown falls by one per second down to 1, and the next tick restores `check_interval`. While not connected, it stands still. |
| Monitor.TicksPeriod | heartbeat_login_pyqt.py:450-457 | While connected, as many ticks as the countdown shows bring it back to `check_interval`. |
| Guardian.CampusAssistant.constructor | heartbeat_login_pyqt.py:183-190 | The globals start at their initial values: `max_attempts` 9999, `check_interval` 30, status "监控中", countdown `check_interval`, no attempts and no notices. |
| Guardian.CampusAssistant.IsConnected | heartbeat_login_pyqt.py:373-383 | Returns the environment's answer for the next probe and counts the probe. |
| Guardian.CampusAssistant.Attempt | heartbeat_login_pyqt.py:478-480 | Increments the counter, announces the attempt, and runs the login on the current information. |
| Guardian.CampusAssistant.RetryStep | heartbeat_login_pyqt.py:478-487 | One round of the inner loop either ends it reconnected, in the state `Monitor.RetryLoop` specifies, or uses one attempt and leaves the loop's outcome unchanged. |
| Guardian.CampusAssistant.Retry | heartbeat_login_pyqt.py:477-487 | The in-place inner loop produces the state that `Monitor.RetryLoop` specifies. |
| Guardian.CampusAssistant.GiveUp | heartbeat_login_pyqt.py:488-491 | The check after the loop produces the state that `Monitor.GiveUpCheck` specifies. |
| Guardian.CampusAssistant.MonitorPass | heartbeat_login_pyqt.py:469-492 | One pass of the outer loop produces the state that `Monitor.Iteration` specifies. |
| Guardian.CampusAssistant.NetworkMonitor | heartbeat_login_pyqt.py:459-492 | Resets the counter, raises the start notice, and runs the passes. The result is `Monitor.NetworkMonitor` of the old state. |
| Guardian.CampusAssistant.CountdownTick | heartbeat_login_pyqt.py:452-456 | One second of the countdown, changing nothing but the countdown. |
| Guardian.CampusAssistant.UpdateCountdown | heartbeat_login_pyqt.py:450-457 | The countdown after n seconds is `Monitor.Ticks`. |
| Guardian.CampusAssistant.HandleParamDialog | heartbeat_login_pyqt.py:522-534 | An accepted dialog merges the non-empty fields and raises "登录信息已更新". A cancelled one changes nothing. |

## Left out

- The Qt user interface is not modelled: dialogs, tray icon, menu, tooltip thread, about box, and the first-launch dialog in `main`.
- `get_local_ipv4` is not modelled. Its UDP socket trick is I/O, so its result, or the empty string on failure, is a parameter of each attempt.
- `socket.getaddrinfo` and the host name lookup are not modelled. Their answer list, or `None` when they raise, is an input; only the filter is modelled.
- The HTTP calls (`requests.head`, `requests.get`) are not modelled. Their status codes, reply text or exception text are inputs. Timeouts and redirects only affect which outcome occurs.
- Configuration file I/O is not modelled: `load_config`, `save_config` and its error notice. The call to `save_config` in the settings handler is left out, and the login information a configuration supplies is a parameter of the constructor.
- Threads, `time.sleep` and the `running` flag are not modelled. `running` is taken to stay true: quitting is OS process exit. The monitor's endless outer loop is modelled for a given number of passes.
- Concurrency between the countdown thread, the monitor thread and the dialog is not modelled. Each method runs without interleaving.
- Notifications are not delivered: `show_toast` is modelled as appending a `Notice` to a log.
- The login attempts the monitor makes go through its `Env`. The proofs about the monitor hold for any `Env`, whose `login` is any function of the login information and the attempt index. `Monitor.CampusEnv` wires it to `Login.LoginCampusNetwork`, and `Monitor.IncompleteExhausts` and `Monitor.CampusEnvOneNotice` state the facts about that wiring.
- The fixed tail of the login query (MAC placeholder, VLAN id, version and page tokens) is kept as one literal and is not parsed. The proofs read only the parameters before it.
- Cipher.DecryptEncrypted: the round trip is stated for characters with codes below 256. Wider characters give chunks longer than two digits (see Cipher.WideCharChunk), and the ciphertext then cannot be split unambiguously.
