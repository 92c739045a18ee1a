/** The Authorization header and the request body of `src/routeros.c`. */
module RouterOs {
  import opened Wrappers
  import opened CText
  import opened Json
  import opened Base64

  const USER_MAX := 64
  const PASS_MAX := 128
  const HEADER_MAX := 256
  const ESCAPED_MAX := 8192
  const BODY_MAX := 4096

  // ----- The Basic header (section 2 of RFC 7617) -----

  function Credentials(user: CString, pass: CString): CString
  {
    user + ":" + pass
  }

  /** What the code stores for the fields it kept of user and password. */
  function StoredHeader(user: CString, pass: CString): CString
    requires IsOctets(user) && IsOctets(pass)
  {
    var creds := Credentials(Fit(user, USER_MAX), Fit(pass, PASS_MAX));
    var code := Encode(creds);
    EncodeLength(creds);
    BasicLine(code)
  }

  /** What is stored for an encoding: nothing if it overflows its own buffer. */
  function BasicLine(code: CString): CString
  {
    if HEADER_MAX <= |code| then "" else Fit("Basic " + code, HEADER_MAX)
  }

  class RouterosCtx {
    var user: CString
    var pass: CString
    const authHeader: array<char>

    /** `routeros_init` without its connection: the fields, then the header. */
    constructor (user: CString, pass: CString)
      requires IsOctets(user) && IsOctets(pass)
      ensures this.user == Fit(user, 64) && this.pass == Fit(pass, 128)
      ensures fresh(authHeader) && authHeader.Length == HEADER_MAX
      ensures Held(authHeader[..]) == StoredHeader(user, pass)
    {
      this.user := Fit(user, USER_MAX);
      this.pass := Fit(pass, PASS_MAX);
      this.authHeader := new char[HEADER_MAX];
      new;
      BuildAuthHeader();
      assert Fit(Fit(user, USER_MAX), USER_MAX) == Fit(user, USER_MAX);
      assert Fit(Fit(pass, PASS_MAX), PASS_MAX) == Fit(pass, PASS_MAX);
    }

    method BuildAuthHeader()
      requires |user| < USER_MAX && |pass| < PASS_MAX && authHeader.Length == HEADER_MAX
      requires IsOctets(user) && IsOctets(pass)
      modifies authHeader
      ensures Held(authHeader[..]) == StoredHeader(user, pass)
    {
      hide Encode, Held;
      var creds := new char[256];
      var encoded := new char[256];
      var text := Credentials(user, pass);
      var wrote := PrintInto(creds, 0, text);
      HeldIs(creds[..], text);
      EncodeLength(text);
      var rc := Base64Encode(text, encoded);
      if rc != 0 {
        authHeader[0] := '\0';
        HeldIs(authHeader[..], "");
        return;
      }
      var line: CString := "Basic " + Encode(text);
      wrote := PrintInto(authHeader, 0, line);
      HeldIs(authHeader[..], Fit(line, HEADER_MAX));
    }
  }

  /** The stored header is the one RFC 7617 asks for exactly when neither field was cut and
      user, colon and password together have at most 186 octets. */
  lemma {:induction false} HeaderExactIff(user: CString, pass: CString)
    requires IsOctets(user) && IsOctets(pass)
    ensures StoredHeader(user, pass) == "Basic " + Encode(Credentials(user, pass))
       <==> |user| < 64 && |pass| < 128 && |Credentials(user, pass)| <= 186
  {
    KeptIffShort(user, pass);
    hide Encode, Credentials, Fit, BasicLine;
    HeaderOf(Credentials(Fit(user, USER_MAX), Fit(pass, PASS_MAX)), Credentials(user, pass));
  }

  lemma HeaderOf(kept: CString, full: CString)
    requires IsOctets(kept) && IsOctets(full) && |kept| <= |full|
    ensures '\0' !in Encode(kept)
    ensures BasicLine(Encode(kept)) == "Basic " + Encode(full) <==> kept == full && |full| <= 186
  {
    EncodeLength(full);
    EncodeLength(kept);
    EncodeInjective(kept, full);
    hide Encode, BasicLine, IsOctets;
    HeaderOfCodes(Encode(kept), Encode(full), |kept|, |full|);
  }

  lemma HeaderOfCodes(code: CString, want: CString, n: nat, m: nat)
    requires |code| == 4 * ((n + 2) / 3) && |want| == 4 * ((m + 2) / 3) && n <= m
    ensures BasicLine(code) == "Basic " + want <==> code == want && m <= 186
  {
    CodeLengths(n, m);
    hide BasicLine;
    StoredVersusFull(code, want);
  }

  lemma CodeLengths(n: nat, m: nat)
    requires n <= m
    ensures 4 * ((n + 2) / 3) <= 4 * ((m + 2) / 3)
    ensures 4 * ((m + 2) / 3) <= 249 <==> m <= 186
  {
  }

  lemma StoredVersusFull(code: CString, want: CString)
    requires |code| <= |want|
    ensures BasicLine(code) == "Basic " + want
       <==> code == want && |want| <= 249
  {
    assert ("Basic " + code)[6..] == code;
    assert ("Basic " + want)[6..] == want;
  }

  lemma KeptIffShort(user: CString, pass: CString)
    requires IsOctets(user) && IsOctets(pass)
    ensures IsOctets(Credentials(user, pass))
    ensures IsOctets(Credentials(Fit(user, USER_MAX), Fit(pass, PASS_MAX)))
    ensures var kept := Credentials(Fit(user, USER_MAX), Fit(pass, PASS_MAX));
            && |kept| <= |Credentials(user, pass)|
            && (kept == Credentials(user, pass) <==> |user| < USER_MAX && |pass| < PASS_MAX)
  {
  }

  // ----- What the receiver of the header reads -----

  datatype Login = Login(user: string, pass: string)

  function ColonFrom(s: string, i: nat): (q: nat)
    requires i <= |s|
    ensures i <= q <= |s| && (q < |s| ==> s[q] == ':')
    ensures forall k :: i <= k < q ==> s[k] != ':'
    decreases |s| - i
  {
    if i == |s| || s[i] == ':' then i else ColonFrom(s, i + 1)
  }

  /** User and password are what stands before and behind the first colon. */
  function Split(creds: string): Option<Login>
  {
    var q := ColonFrom(creds, 0);
    if q == |creds| then None else Some(Login(creds[..q], creds[q + 1..]))
  }

  /** The login a Basic header carries (section 2 of RFC 7617). */
  function Received(header: string): Option<Login>
  {
    if |header| < 6 || header[..6] != "Basic " then None
    else
      var creds := Decode(header[6..]);
      if creds.None? then None else Split(creds.value)
  }

  lemma SplitIff(keptUser: CString, keptPass: CString, user: CString, pass: CString)
    requires keptUser <= user && keptPass <= pass
    ensures Split(Credentials(keptUser, keptPass)) == Some(Login(user, pass))
       <==> keptUser == user && keptPass == pass && ':' !in user
  {
    var creds := Credentials(keptUser, keptPass);
    var q, n := ColonFrom(creds, 0), |keptUser|;
    assert creds[n] == ':' && q <= n;
    assert creds[..n] == keptUser && creds[n + 1..] == keptPass;
    hide ColonFrom;
    if ':' in keptUser {
      var k :| 0 <= k < n && keptUser[k] == ':';
      assert creds[k] == ':';
      assert |creds[..q]| < |user|;
    } else {
      assert forall k :: 0 <= k < n ==> creds[k] == keptUser[k] && keptUser[k] in keptUser;
      assert q == n;
    }
  }

  /** What the receiver reads from the header stored for credentials: themselves, as long as
      they have at most 186 octets, and nothing otherwise. */
  lemma ReceivedLine(creds: CString)
    requires IsOctets(creds)
    ensures '\0' !in Encode(creds)
    ensures Received(BasicLine(Encode(creds))) == if |creds| <= 186 then Split(creds) else None
  {
    var code := Encode(creds);
    EncodeLength(creds);
    CodeLengths(|creds|, |creds|);
    DecodeEncode(creds);
    hide Encode, Decode, Split;
    if |code| <= 249 {
      assert BasicLine(code) == "Basic " + code;
      assert ("Basic " + code)[..6] == "Basic " && ("Basic " + code)[6..] == code;
    } else if |code| < HEADER_MAX {
      CutLine(code);
    }
  }

  lemma CutLine(code: CString)
    requires 249 < |code| < HEADER_MAX
    ensures Received(BasicLine(code)) == None
  {
    var line := BasicLine(code);
    assert line == ("Basic " + code)[..255];
    assert |line[6..]| == 249;
    hide BasicLine;
    DecodeLength(line[6..]);
  }

  /** The receiver of the stored header gets the user and the password exactly when neither
      field was cut, user, colon and password have at most 186 octets, and the user has no
      colon, which RFC 7617 forbids but the code does not check. */
  lemma {:induction false} LoginArrivesIff(user: CString, pass: CString)
    requires IsOctets(user) && IsOctets(pass)
    ensures Received(StoredHeader(user, pass)) == Some(Login(user, pass))
       <==> && |user| < 64 && |pass| < 128 && |Credentials(user, pass)| <= 186
            && ':' !in user
  {
    var keptUser, keptPass := Fit(user, USER_MAX), Fit(pass, PASS_MAX);
    KeptIffShort(user, pass);
    assert keptUser <= user && keptPass <= pass;
    assert keptUser == user <==> |user| < USER_MAX;
    assert keptPass == pass <==> |pass| < PASS_MAX;
    hide Fit, Received, BasicLine, Split, Encode;
    SplitIff(keptUser, keptPass, user, pass);
    ReceivedLine(Credentials(keptUser, keptPass));
    hide Credentials;
  }

  // ----- The body of an execute request -----

  const PREFIX := "{\"script\":\""
  const SUFFIX := "\"}"

  function ScriptBody(command: CString): string
  {
    "{" + MemberText("script", command) + "}"
  }

  /** `routeros_execute` up to the POST: refused exactly when the escaped command is longer
      than 4082 bytes, and never cut. */
  method BuildBody(command: CString, body: array<char>) returns (rc: int)
    requires body.Length == BODY_MAX
    modifies body
    ensures rc == 0 || rc == -1
    ensures rc == 0 <==> |Escaped(command)| <= 4082
    ensures rc == 0 ==> Held(body[..]) == ScriptBody(command)
    ensures rc == -1 ==> body[..] == old(body[..])
  {
    hide Escaped, Held;
    var escaped := new char[ESCAPED_MAX];
    rc := JsonEscape(command, escaped);
    if rc != 0 {
      return -1;
    }
    var text := Escaped(command);
    var needed := |PREFIX| + |text| + |SUFFIX| + 1;
    if needed > body.Length {
      return -1;
    }
    CopyInto(body, 0, PREFIX);
    assert body[..|PREFIX|] == PREFIX;
    CopyInto(body, |PREFIX|, text);
    assert body[..|PREFIX| + |text|] == PREFIX + text;
    CopyInto(body, |PREFIX| + |text|, SUFFIX);
    assert body[..needed - 1] == PREFIX + text + SUFFIX;
    body[needed - 1] := '\0';
    BodyText(command);
    HeldIs(body[..], ScriptBody(command));
  }

  lemma BodyText(command: CString)
    ensures ScriptBody(command) == PREFIX + Escaped(command) + SUFFIX
    ensures '\0' !in ScriptBody(command)
  {
    ScriptKey();
    EscapedIsPlain(command);
    hide Escaped, Quoted;
    PrefixText(Escaped(command));
  }

  lemma ScriptKey()
    ensures Escaped("script") == "script"
  {
    assert Plain("script");
    EscapedFixedIff("script");
  }

  lemma PrefixText(e: CString)
    ensures "{" + Quoted("script", e) + "}" == PREFIX + e + SUFFIX
    ensures '\0' !in PREFIX + e + SUFFIX
  {
    assert "{" + ("\"" + "script" + "\":\"") == PREFIX;
  }

  /** Read byte by byte, the body is one JSON object whose only member is the command,
      byte for byte. */
  lemma {:induction false} BodyCarriesCommand(command: CString)
    ensures ReadObject(ScriptBody(command), 0)
         == Some(Read([Member("script", command)], |ScriptBody(command)|))
  {
    var body := ScriptBody(command);
    assert body[0..|body|] == body;
    ReadPrintedObject(body, 0, "script", command, |body|);
  }
}
