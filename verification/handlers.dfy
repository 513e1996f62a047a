/**
 * Command handlers, the authentication gate and the command router (ServeMux).
 * A handler is an opaque function from the argument string and the session's
 * authentication snapshot to what it writes into the two reply buffers.
 */
module Handlers {
  import opened Wrappers
  import opened GoStrings

  /** What a handler wrote into an ImapReply: the untagged status buffer and the tagged response buffer. */
  datatype Reply = Reply(status: string, response: string)

  /** The fixed text of the command-not-found reply. */
  const NotFoundText: string := "BAD error in IMAP command received by server"

  /**
   * A Handler: a value with its own ImapCommand, a closure registered through
   * HandleFunc (funcHandler), or the built-in CommandNotFoundHandler.
   */
  datatype Handler =
    | Object(command: (string, bool) -> Reply)
    | Func(handleFunc: (string, bool) -> Reply)
    | CommandNotFound

  /** ImapCommand(arg, reply) of a handler, with reply.Auth == auth. */
  function Invoke(h: Handler, arg: string, auth: bool): (r: Reply)
    ensures h.CommandNotFound? ==> r == Reply("", NotFoundText)
  {
    match h
    case Object(f) => f(arg, auth)
    case Func(f) => f(arg, auth)
    case CommandNotFound => Reply("", NotFoundText)
  }

  /** An AuthHandler: the default DummyAuthHandler or a pluggable credential check. */
  datatype AuthHandler =
    | DummyAuth
    | Gate(check: (string, string) -> bool)

  /** AuthHandler.Authenticate(username, password); the dummy handler denies everyone. */
  function Authenticate(a: AuthHandler, username: string, password: string): (ok: bool)
    ensures a.DummyAuth? ==> !ok
    ensures a.Gate? ==> ok == a.check(username, password)
  {
    match a
    case DummyAuth => false
    case Gate(check) => check(username, password)
  }

  /** The router: handlers keyed by the exact name they were registered under. */
  datatype ServeMux = ServeMux(handlerTable: map<string, Handler>)

  /** NewServeMux: a router with no handler. */
  function NewServeMux(): (m: ServeMux)
    ensures forall name :: name !in m.handlerTable
  {
    ServeMux(map[])
  }

  /**
   * ServeMux.Handle: the handler is stored under exactly the given name (no
   * lower-casing), replacing any earlier one; every other entry is kept.
   */
  function Handle(m: ServeMux, command: string, handler: Handler): (r: ServeMux)
    ensures command in r.handlerTable && r.handlerTable[command] == handler
    ensures forall name :: name != command ==> (name in r.handlerTable <==> name in m.handlerTable)
    ensures forall name :: name != command && name in m.handlerTable ==> r.handlerTable[name] == m.handlerTable[name]
  {
    ServeMux(m.handlerTable[command := handler])
  }

  /** ServeMux.HandleFunc: registers the closure wrapped as a funcHandler, which runs it unchanged. */
  function HandleFunc(m: ServeMux, command: string, f: (string, bool) -> Reply): (r: ServeMux)
    ensures command in r.handlerTable
    ensures forall arg, auth :: Invoke(r.handlerTable[command], arg, auth) == f(arg, auth)
    ensures forall name :: name != command ==> (name in r.handlerTable <==> name in m.handlerTable)
    ensures forall name :: name != command && name in m.handlerTable ==> r.handlerTable[name] == m.handlerTable[name]
  {
    Handle(m, command, Func(f))
  }

  /** The routing key of an input: the lower-cased text before its first space (all of it when there is none). */
  function CommandKey(input: string): (key: string)
    ensures ' ' !in key
    ensures |key| <= |input| && key == ToLower(input[..|key|])
    ensures |key| < |input| ==> input[|key|] == ' '
  {
    var first := Split(input, ' ')[0];
    SplitPieces(input, ' ');
    ToLowerKeepsSpaces(first);
    ToLower(first)
  }

  /** The handler ImapCommand selects for an input, if one is registered under its key. */
  function Route(m: ServeMux, input: string): (h: Option<Handler>)
    ensures h.Some? <==> CommandKey(input) in m.handlerTable
  {
    var key := CommandKey(input);
    if key in m.handlerTable then Some(m.handlerTable[key]) else None
  }

  /**
   * ServeMux.ImapCommand: the selected handler receives the whole input, its own
   * command word included; with no handler the not-found reply is produced,
   * which writes only the response buffer.
   */
  function Dispatch(m: ServeMux, input: string, auth: bool): (r: Reply)
    ensures Route(m, input).Some? ==> r == Invoke(Route(m, input).value, input, auth)
    ensures Route(m, input).None? ==> r.status == "" && r.response == NotFoundText
  {
    match Route(m, input)
    case Some(h) => Invoke(h, input, auth)
    case None => Invoke(CommandNotFound, input, auth)
  }

  /** An ASCII digit or letter, the only bytes validTag admits. */
  predicate IsAlnum(c: char)
  {
    '0' <= c <= '9' || 'A' <= c <= 'Z' || 'a' <= c <= 'z'
  }

  /** validTag: every character is an ASCII digit or letter; the empty tag is valid. */
  function ValidTag(tag: string): (ok: bool)
    ensures ok <==> forall i :: 0 <= i < |tag| ==> IsAlnum(tag[i])
  {
    if |tag| == 0 then true
    else IsAlnum(tag[0]) && ValidTag(tag[1..])
  }

  /** A valid tag contains no space, so it always ends at the line's first space. */
  lemma ValidTagHasNoSpace(tag: string)
    requires ValidTag(tag)
    ensures ' ' !in tag
  {
  }

  /**
   * Dispatch is case-insensitive in the command word: inputs whose first words
   * agree after lower-casing, followed by the same remainder, select the same handler.
   */
  lemma DispatchIgnoresCase(m: ServeMux, w1: string, w2: string, rest: string)
    requires ' ' !in w1 && ' ' !in w2
    requires ToLower(w1) == ToLower(w2)
    requires rest == [] || rest[0] == ' '
    ensures Route(m, w1 + rest) == Route(m, w2 + rest)
  {
    CommandKeyOf(w1, rest);
    CommandKeyOf(w2, rest);
  }

  /** The key of a word followed by nothing or by a space-led remainder is the lower-cased word. */
  lemma CommandKeyOf(w: string, rest: string)
    requires ' ' !in w
    requires rest == [] || rest[0] == ' '
    ensures CommandKey(w + rest) == ToLower(w)
  {
    SplitFirstWord(w, ' ', rest);
  }

  /**
   * A handler reached through its command word receives the whole input,
   * the word included, together with the authentication snapshot.
   */
  lemma DispatchPassesWholeInput(m: ServeMux, w: string, rest: string, auth: bool)
    requires ' ' !in w
    requires rest == [] || rest[0] == ' '
    requires ToLower(w) in m.handlerTable
    ensures Dispatch(m, w + rest, auth) == Invoke(m.handlerTable[ToLower(w)], w + rest, auth)
  {
    CommandKeyOf(w, rest);
  }

  /**
   * Handle does not lower-case: a handler registered under a name holding an
   * upper-case letter is never selected, so the registration changes no dispatch.
   */
  lemma UppercaseRegistrationUnreachable(m: ServeMux, name: string, h: Handler, input: string, auth: bool)
    requires exists i :: 0 <= i < |name| && IsUpper(name[i])
    ensures Route(Handle(m, name, h), input) == Route(m, input)
    ensures Dispatch(Handle(m, name, h), input, auth) == Dispatch(m, input, auth)
  {
  }

  /** Registering a name twice leaves only the second handler: the first leaves no trace. */
  lemma ReRegistrationLastWins(m: ServeMux, name: string, h1: Handler, h2: Handler)
    ensures Handle(Handle(m, name, h1), name, h2) == Handle(m, name, h2)
  {
  }
}
