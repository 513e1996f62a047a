# IMAP-style dispatch and session core, modelled in Dafny

This project models the core of a small Go server for a tagged, line-oriented
protocol shaped like IMAP. A client sends lines `<tag> <command> [args…]`. The
server answers with untagged status lines `* <text>` and tagged response lines
`<tag> <text>`.

The model covers:

- **Handlers and the router** (`handlers.dfy`, module `Handlers`). `Handler`
  stands for a handler object, a closure registered through `HandleFunc`, or the
  built-in not-found handler. `Reply` holds the two buffers a handler writes:
  status and response. `AuthHandler` is the deny-all default or a pluggable
  check. `ServeMux` is the command table, with `Handle`, `HandleFunc` and
  `Dispatch` (Go's `ImapCommand`). `ValidTag` is the tag check.
- **The session** (`session.dfy`, module `Sessions`). It has the `Session`
  record, `NewSession`, the setters, `Authenticate`, and `ReadLine`, which
  removes every `"\r\n"`. It also has the output formats `WriteLine`,
  `WriteLineTag` and `WriteStatus`.
- **The connection loop** (`connection.dfy`, module `Connection`). `Step` is
  one iteration of `handleConn` on one line, as a pure function: it gives the
  lines written and the next session, or a panic. `Serve` folds `Step` over a
  sequence of lines. `HandleConn` runs the same loop on the raw input text.
- **Go string operations** (`gostrings.dfy`, module `GoStrings`). The model
  needs `strings.Index`, `strings.Split`/`strings.Join` on one character,
  `strings.ToLower` on ASCII, and `strings.Replace(s, "\r\n", "", -1)`.
- **Concrete exchanges** (`scenarios.dfy`, module `Scenarios`). These are
  client lines and what the server writes for them.

The model follows the Go code as written. In five places that behaviour
differs from what a reader of the protocol description might expect:

- A line with an invalid tag is answered with the not-found text under that
  same tag. The tag is echoed verbatim (handlers.go:122-125, 141).
- A line with no space, or one that starts with a space, writes nothing. The
  not-found reply goes into a buffer that is never flushed (handlers.go:106-113).
- `tag auth x y` calls the auth handler with the user name `"auth"` (the
  lower-cased command word) and the password `x` (handlers.go:128).
  `tag auth` with no third word indexes past the end of the split, and the Go
  program panics.
- `Handle` stores the handler under the name exactly as given, with no
  lower-casing. Lookups lower-case the command word, so a name with an
  upper-case letter is never reached (handlers.go:56-58, 66).
- `ReadLine` deletes `"\r\n"` but not a bare `"\n"`. A line ended by `"\n"`
  alone keeps it on its last word (session.go:41).

The getters `AuthHandler()` and `ServeMux()` and the function `IsAuth`
read a field of the session. The model reads the field directly:
`s.authHandle`, `s.srvMux` and `IsAuth(s)`.

## Model

| member | source | states |
|---|---|---|
| GoStrings.IndexOf | handlers.go:105 | strings.Index of a one-character string: -1 exactly when the character is absent, otherwise a position holding it with no earlier occurrence |
| GoStrings.Split | handlers.go:65 | strings.Split yields at least one piece, and exactly one when the separator does not occur |
| GoStrings.SplitPieces | handlers.go:65 | no piece of a split holds the separator; the first piece is the text before the first separator |
| GoStrings.Join | handlers.go:130 | strings.Join of a non-empty list is as long as its pieces together plus one separator per gap; JoinSplit and SplitJoin pin its content as the inverse of Split |
| GoStrings.JoinSplit | handlers.go:115-130 | joining the split pieces of a string with the same separator gives back the string |
| GoStrings.SplitJoin | handlers.go:115-130 | splitting a join of separator-free pieces gives back the pieces |
| GoStrings.LowerChar | handlers.go:66 | the ASCII case mapping: upper-case letters shift by 32 to lower case, every other character is unchanged |
| GoStrings.ToLower | handlers.go:66 | strings.ToLower keeps the length, maps each character by LowerChar, and leaves no upper-case letter |
| GoStrings.ToLowerIdempotent | handlers.go:118 | lower-casing twice equals lower-casing once |
| GoStrings.ToLowerKeepsSpaces | handlers.go:66 | lower-casing neither creates nor removes a space |
| GoStrings.RemoveCRLF | session.go:41 | strings.Replace of "\r\n" by "": the string is unchanged exactly when it holds no "\r\n", and shorter otherwise |
| GoStrings.RemoveCRLFSinglePass | session.go:41 | the removal is one left-to-right pass: "\r\r\n\n" loses its inner "\r\n" and the result still holds one |
| GoStrings.RemoveCRLFOfLine | session.go:41 | on a line whose only newline is its last character, a "\r\n" ending is removed and a bare "\n" ending is kept |
| Handlers.Invoke | handlers.go:24-36 | a handler's ImapCommand; the not-found handler writes the fixed BAD text to the response buffer and nothing to the status buffer |
| Handlers.Authenticate | handlers.go:38-46 | the deny-all DummyAuthHandler refuses every user; a pluggable gate returns its own verdict |
| Handlers.NewServeMux | handlers.go:75-77 | a new router has no entries |
| Handlers.Handle | handlers.go:56-58 | the handler is stored under exactly the given name, replacing any earlier one; every other entry keeps its presence and handler |
| Handlers.HandleFunc | handlers.go:60-62 | the closure is stored wrapped as a funcHandler (handlers.go:20-30), which runs it unchanged on every argument; other entries are kept |
| Handlers.CommandKey | handlers.go:65-66 | the lookup key is the lower-cased text before the input's first space, and holds no space |
| Handlers.Route | handlers.go:66-67 | a handler is selected exactly when the key is in the table |
| Handlers.Dispatch | handlers.go:64-73 | the selected handler gets the whole input; with no handler the reply is the not-found text in the response buffer only |
| Handlers.ValidTag | handlers.go:79-87 | a tag is valid exactly when every character is an ASCII digit or letter; the empty tag is valid |
| Handlers.ValidTagHasNoSpace | handlers.go:79-87 | a valid tag contains no space |
| Handlers.CommandKeyOf | handlers.go:65-66 | the key of a word followed by nothing or a space-led remainder is the lower-cased word |
| Handlers.DispatchIgnoresCase | handlers.go:66 | command words equal up to letter case select the same handler |
| Handlers.DispatchPassesWholeInput | handlers.go:70-72 | the handler reached through a command word receives the whole input, the word included, with the authentication snapshot |
| Handlers.UppercaseRegistrationUnreachable | handlers.go:56-66 | registering under a name with an upper-case letter changes no routing and no dispatch result |
| Handlers.ReRegistrationLastWins | handlers.go:56-58 | registering a name twice leaves the same router as registering only the second handler |
| Sessions.NewSession | session.go:86-91 | a new session is unauthenticated and open, with the default router, the deny-all auth handler and the given timeout |
| Sessions.SetReadTimeout | session.go:30-32 | only the timeout changes |
| Sessions.SetAuthHandler | session.go:66-68 | only the auth handler changes |
| Sessions.SetServeMux | session.go:78-80 | only the router changes |
| Sessions.Authenticate | session.go:70-72 | the flag becomes exactly the auth handler's verdict; nothing else changes |
| Sessions.IsAuthReportsLastVerdict | session.go:82-84 | IsAuth reports the current flag: false in a new session, the verdict after Authenticate, and unchanged by every setter |
| Sessions.DeniedAuthenticationResets | session.go:70-72 | a denied attempt clears an earlier successful one |
| Sessions.DefaultAuthDenies | session.go:86-91 | a new session's Authenticate never succeeds |
| Sessions.ReadString | session.go:36 | ReadString fails exactly when no newline remains; otherwise it returns the text through the first newline and the rest, which together give the input |
| Sessions.ReadLine | session.go:34-43 | ReadLine fails exactly when ReadString does, and always consumes input |
| Sessions.ReadLineCRLF | session.go:34-43 | a line ended by "\r\n" is read without its terminator |
| Sessions.ReadLineBareLF | session.go:34-43 | a line ended by a bare "\n" is read with the "\n" still on it |
| Sessions.WriteLine | session.go:45-52 | the text followed by one newline |
| Sessions.WriteLineTag | session.go:54-56 | the tag, a space, the text and a newline |
| Sessions.WriteStatus | session.go:58-60 | the untagged form "* " + text + newline |
| Sessions.WrittenLineTagRoundTrip | session.go:36-56 | a tagged line written by the server reads back whole, and its first space-delimited piece is the tag |
| Connection.Flush | handlers.go:133-145 | a non-empty status buffer becomes one untagged line, then a non-empty response buffer one line under the tag |
| Connection.FlushTagged | handlers.go:133-145 | every line written after a handler runs is untagged or under the given tag |
| Connection.Step | handlers.go:94-148 | one loop iteration writes at most two lines and changes nothing but the authentication flag |
| Connection.StepTagged | handlers.go:115-147 | the tagged branch writes at most two lines and changes nothing but the authentication flag |
| Connection.ParseTag | handlers.go:105-120 | on a tagged line the first space ends the tag, and the split puts the tag first |
| Connection.StepOfTagged | handlers.go:105-120 | a tagged line takes the tagged branch, with the split of the text after the tag and the command word lower-cased |
| Connection.RejoinLowered | handlers.go:118-130 | rejoining the split with the command word lower-cased gives the lower-cased word followed by the unchanged rest |
| Connection.StepNoTag | handlers.go:105-113 | a line with no space, or one starting with a space, writes nothing and leaves the session unchanged |
| Connection.StepInvalidTag | handlers.go:122-125 | an invalid tag is answered by the not-found line under that same tag; the router is not consulted |
| Connection.StepAuthCommand | handlers.go:127-128 | an auth line sets the flag to the handler's verdict on user "auth" and the third word as password, and writes nothing |
| Connection.StepAuthMissingPassword | handlers.go:127-128 | an auth line with no third word panics |
| Connection.StepAuthLine | handlers.go:127-128 | any auth line with a third word: the verdict on user "auth" and the first word after the command as password |
| Connection.StepDispatch | handlers.go:129-145 | any other command goes to the router with the command word lower-cased and the pre-line flag; its buffers are flushed under the tag; the session is unchanged |
| Connection.StepNonAuthLine | handlers.go:105-131 | a line that is not an auth line never panics and leaves the session unchanged |
| Connection.StepTaggedNonAuth | handlers.go:115-131 | on a tagged line with an invalid tag or a non-auth command, the step does not panic and leaves the session unchanged |
| Connection.StepEchoesTag | handlers.go:105-145 | a line without a tag writes nothing; otherwise every line written is untagged or under the line's own tag |
| Connection.StepTaggedEchoesTag | handlers.go:115-145 | on a tagged line, every line written is untagged or under that tag |
| Connection.Serve | handlers.go:89-150 | the loop over lines changes only the authentication flag, and ends as closed exactly when the session was closed: no line ever sets `closed` |
| Connection.HandleConn | handlers.go:89-150 | the loop over raw input changes only the authentication flag, and ends as closed exactly when the session was closed |
| Connection.Stripped | session.go:34-43 | for raw lines, one stripped line per raw line, each exactly the line ReadLine returns for that raw line whatever input follows |
| Connection.ReadStringOfRawLine | session.go:36 | ReadString delivers a raw line at the front of the input whole |
| Connection.HandleConnOfRawLine | handlers.go:94-148 | on input that starts with a raw line, the loop steps that line with "\r\n" removed, then continues on the rest |
| Connection.ServeOfFirstLine | handlers.go:94-148 | on a non-empty line sequence, the loop steps the first line, then continues on the others |
| Connection.HandleConnIsServe | handlers.go:89-150 | the loop on raw lines plus an unterminated tail equals the fold of Step over the stripped lines; the tail is never processed |
| Connection.NoAuthLineNoChange | handlers.go:89-150 | with no auth line, the session ends as it began and nothing panics |
| Connection.StepUnderDummyAuth | handlers.go:44-46 | under the deny-all handler, one step never authenticates |
| Connection.DummyAuthNeverAuthenticates | handlers.go:89-150 | under the deny-all handler, a whole connection never authenticates |
| Connection.NewSessionStaysUnauthenticated | session.go:86-91 | a new session ends every connection unauthenticated and never closed |
| Connection.ServeSilentThenOne | handlers.go:89-150 | when the first line writes nothing, two lines write what the second writes in the session the first left |
| Connection.AuthVerdictReachesNextCommand | handlers.go:121-130 | an auth line's verdict is the authentication snapshot the next command's handler receives |
| Scenarios.NoopAnswered | handlers.go:115-145 | `A01 NOOP` reaches a `noop` registration and writes `A01 OK done` |
| Scenarios.NoopRoutes | handlers.go:64-73 | the `noop` command of a one-entry router reaches its closure |
| Scenarios.ResponseOnly | handlers.go:133-145 | a reply with only a response is written as one line under the tag |
| Scenarios.GarbageIsSilent | handlers.go:105-113 | `GARBAGE` writes nothing |
| Scenarios.InvalidTagEchoed | handlers.go:122-125 | `BAD!1 NOOP` is answered by the not-found text under `BAD!1` |
| Scenarios.AuthPassesLiteralUser | handlers.go:127-128 | `A02 auth alice secret` under a gate that admits only alice/secret leaves the session unauthenticated |
| Scenarios.BareNewlineMissesHandler | session.go:41 | a line ended by a bare newline keeps it, so `NOOP\n` misses the `noop` registration and gets the not-found reply |
| Scenarios.NoopMisses | handlers.go:66-69 | the key `noop\n` is not registered, so the not-found reply is produced |

## Left out

- Network I/O, `bufio` buffering, read deadlines and timeouts: the connection is the text still to be read, and the timeout is only a stored number.
- Write errors: `handleConn` logs and ignores them, so every write is modelled as succeeding and the output is the list of lines written.
- Logging (`log.Println`): it has no effect on the protocol.
- The listener and accept loop (`parseAddrProto`, `Serve`, `ServeWithTimeout`, `ListenAndServe`, session.go:93-122) and the goroutine per connection: concurrency is outside the model.
- The package-level `DefaultServeMux`, `DefaultAuthHander`, `Handle` and `HandleFunc` (session.go:27-28, 124-130): the default router is a parameter of `NewSession`, and registration on it is `Handlers.Handle`/`Handlers.HandleFunc` applied to that value.
- The `Server` record and TLS configuration (session.go:12-15): nothing in the core reads them.
- Handler bodies: a handler is an arbitrary function from (argument, authentication snapshot) to the two buffers it writes.
- A panic: nothing in the code recovers one, so the index-out-of-range on `tag auth` (handlers.go:128) ends the whole Go process, every other connection and the accept loop (session.go:111) included. The model stops only the one connection, with the `Panicked` ending and no output for that line.
- Router aliasing: a Go session holds a `*ServeMux` shared with `DefaultServeMux` and every other session (session.go:21, 90), so a `Handle` or `HandleFunc` call made after `NewSession`, even from inside a handler, changes the routing of live sessions. The model's session holds a snapshot of the router taken at `NewSession` (or at `SetServeMux`); registration is assumed to finish before serving begins.
- Strings and nil values: a string is a sequence of Unicode characters, so a client line that is not valid UTF-8 cannot be represented (Go's `strings.ToLower` would rewrite such bytes to U+FFFD). A `Handler`, an `AuthHandler` and the router are never nil in the model, while Go panics on a lookup after `Handle(cmd, nil)` and on an auth line after `SetAuthHandler(nil)`.
- Nothing in the code ever sets `closed`, so the `Closed` ending arises only for a session that starts closed.
- GoStrings.ToLower: covers ASCII letters only; Go's `strings.ToLower` also maps non-ASCII letters.
- Handlers.ValidTag: checks characters, while Go checks the bytes of the UTF-8 encoding; every non-ASCII character encodes to bytes at or above 0x80, so both reject the same tags.
- Connection.Step: its own contract states only the frame and the output bound; the per-branch behaviour is stated by StepNoTag, StepInvalidTag, StepAuthCommand, StepAuthMissingPassword and StepDispatch.
