/**
 * The per-connection Session record and its helpers: the setters and getters,
 * Authenticate, line reading with "\r\n" removal, and the output line formats.
 * The connection itself is replaced by the text still to be read from it, and a
 * write by the text it puts on the wire.
 */
module Sessions {
  import opened Wrappers
  import opened GoStrings
  import opened Handlers

  /** A Session: the authentication and closed flags, the router, the auth handler and the read timeout. */
  datatype Session = Session(
    auth: bool,
    closed: bool,
    srvMux: ServeMux,
    authHandle: AuthHandler,
    timeout: int)

  /**
   * NewSession: not authenticated, not closed, serving the given default router
   * with the deny-all default auth handler.
   */
  function NewSession(defaultMux: ServeMux, timeout: int): (s: Session)
    ensures !s.auth && !s.closed
    ensures s.srvMux == defaultMux && s.authHandle == DummyAuth
    ensures s.timeout == timeout
  {
    Session(false, false, defaultMux, DummyAuth, timeout)
  }

  /** Session.IsAuth: the current authentication flag. */
  function IsAuth(s: Session): bool
  {
    s.auth
  }

  /** setReadTimeout: only the timeout changes. */
  function SetReadTimeout(s: Session, d: int): (r: Session)
    ensures r.timeout == d
    ensures r.auth == s.auth && r.closed == s.closed && r.srvMux == s.srvMux && r.authHandle == s.authHandle
  {
    s.(timeout := d)
  }

  /** SetAuthHandler: only the auth handler changes. */
  function SetAuthHandler(s: Session, a: AuthHandler): (r: Session)
    ensures r.authHandle == a
    ensures r.auth == s.auth && r.closed == s.closed && r.srvMux == s.srvMux && r.timeout == s.timeout
  {
    s.(authHandle := a)
  }

  /** SetServeMux: only the router changes. */
  function SetServeMux(s: Session, m: ServeMux): (r: Session)
    ensures r.srvMux == m
    ensures r.auth == s.auth && r.closed == s.closed && r.authHandle == s.authHandle && r.timeout == s.timeout
  {
    s.(srvMux := m)
  }

  /**
   * Session.Authenticate: the flag becomes exactly the auth handler's verdict,
   * whatever it was before; nothing else changes.
   */
  function Authenticate(s: Session, username: string, password: string): (r: Session)
    ensures r.auth == Handlers.Authenticate(s.authHandle, username, password)
    ensures r.closed == s.closed && r.srvMux == s.srvMux && r.authHandle == s.authHandle && r.timeout == s.timeout
  {
    s.(auth := Handlers.Authenticate(s.authHandle, username, password))
  }

  /**
   * IsAuth reports the verdict of the last Authenticate: a new session starts
   * unauthenticated, Authenticate sets the flag, and the setters leave it alone.
   */
  lemma IsAuthReportsLastVerdict(s: Session, username: string, password: string,
                                 d: int, a: AuthHandler, m: ServeMux, defaultMux: ServeMux)
    ensures !IsAuth(NewSession(defaultMux, d))
    ensures IsAuth(Authenticate(s, username, password)) == Handlers.Authenticate(s.authHandle, username, password)
    ensures IsAuth(SetReadTimeout(s, d)) == IsAuth(s)
    ensures IsAuth(SetAuthHandler(s, a)) == IsAuth(s)
    ensures IsAuth(SetServeMux(s, m)) == IsAuth(s)
  {
  }

  /** There is no ratchet: a denied attempt clears an earlier successful one. */
  lemma DeniedAuthenticationResets(s: Session, username: string, password: string)
    requires s.auth
    requires !Handlers.Authenticate(s.authHandle, username, password)
    ensures !IsAuth(Authenticate(s, username, password))
  {
  }

  /** Under the default auth handler, authentication never succeeds. */
  lemma DefaultAuthDenies(defaultMux: ServeMux, timeout: int, username: string, password: string)
    ensures !IsAuth(Authenticate(NewSession(defaultMux, timeout), username, password))
  {
  }

  /**
   * bufio.Reader.ReadString('\n'): the text up to and including the first newline,
   * and what remains; at end of input without a newline the read fails.
   */
  function ReadString(input: string): (r: Option<(string, string)>)
    ensures r.None? <==> '\n' !in input
    ensures r.Some? ==> r.value.0 + r.value.1 == input
    ensures r.Some? ==> |r.value.0| >= 1 && r.value.0[|r.value.0| - 1] == '\n'
    ensures r.Some? ==> '\n' !in r.value.0[..|r.value.0| - 1]
  {
    var k := IndexOf(input, '\n');
    if k == -1 then None
    else
      assert input[..k + 1][..k] == input[..k];
      Some((input[..k + 1], input[k + 1..]))
  }

  /** Session.ReadLine: one line with every "\r\n" removed, and the unread rest of the input. */
  function ReadLine(input: string): (r: Option<(string, string)>)
    ensures r.None? <==> '\n' !in input
    ensures r.Some? ==> |r.value.1| < |input|
  {
    match ReadString(input)
    case None => None
    case Some((raw, rest)) => Some((RemoveCRLF(raw), rest))
  }

  /** A line terminated by "\r\n" is read without its terminator. */
  lemma ReadLineCRLF(body: string, rest: string)
    requires '\n' !in body
    ensures ReadLine(body + "\r\n" + rest) == Some((body, rest))
  {
    var input := body + "\r\n" + rest;
    IndexOfIs(input, '\n', |body| + 1);
    assert input[..|body| + 2] == (body + "\r") + "\n";
    assert input[|body| + 2..] == rest;
    RemoveCRLFOfLine(body + "\r");
    assert (body + "\r")[..|body|] == body;
  }

  /** A line terminated by a bare "\n" is read with the "\n" still on it. */
  lemma ReadLineBareLF(body: string, rest: string)
    requires '\n' !in body
    requires |body| == 0 || body[|body| - 1] != '\r'
    ensures ReadLine(body + "\n" + rest) == Some((body + "\n", rest))
  {
    var input := body + "\n" + rest;
    IndexOfIs(input, '\n', |body|);
    assert input[..|body| + 1] == body + "\n";
    assert input[|body| + 1..] == rest;
    RemoveCRLFOfLine(body);
  }

  /** Session.WriteLine: the text followed by a newline. */
  function WriteLine(text: string): (w: string)
    ensures |w| == |text| + 1 && w[..|text|] == text && w[|text|] == '\n'
  {
    text + "\n"
  }

  /** Session.WriteLineTag: the tag, a space, the text and a newline. */
  function WriteLineTag(tag: string, text: string): (w: string)
    ensures w == tag + " " + text + "\n"
  {
    WriteLine(tag + " " + text)
  }

  /** Session.WriteStatus: the untagged form "* " + text + newline. */
  function WriteStatus(text: string): (w: string)
    ensures w == "* " + text + "\n"
  {
    WriteLineTag("*", text)
  }

  /**
   * A tagged line written by the server reads back as one whole line, and its
   * text before the first space is the tag, as long as neither contains a
   * newline and the tag holds no space.
   */
  lemma WrittenLineTagRoundTrip(tag: string, text: string, rest: string)
    requires ' ' !in tag && '\n' !in tag && '\n' !in text
    ensures ReadString(WriteLineTag(tag, text) + rest) == Some((WriteLineTag(tag, text), rest))
    ensures Split(WriteLineTag(tag, text), ' ')[0] == tag
  {
    var w := WriteLineTag(tag, text);
    var input := w + rest;
    assert input[..|w| - 1] == tag + " " + text;
    IndexOfIs(input, '\n', |w| - 1);
    assert input[..|w|] == w;
    assert input[|w|..] == rest;
    assert w[|tag|] == ' ' && w[..|tag|] == tag;
    SplitFirst(w, ' ', |tag|);
  }
}
