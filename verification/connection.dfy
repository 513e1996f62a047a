/**
 * The connection loop handleConn. One iteration on one line is the pure
 * function Step over the session; Serve folds Step over the lines of a
 * connection, and HandleConn runs the same loop on the raw input text.
 */
module Connection {
  import opened Wrappers
  import opened GoStrings
  import opened Handlers
  import opened Sessions

  /** One iteration: the lines written and the next session, or a panic. */
  datatype StepResult =
    | Next(out: seq<string>, session: Session)
    | Panic

  /** The line starts with `tag` followed by a space. */
  predicate Tagged(line: string, tag: string)
  {
    |tag| < |line| && line[..|tag|] == tag && line[|tag|] == ' '
  }

  /** Every line written is untagged ("* ") or under `tag`. */
  predicate AllTaggedOr(out: seq<string>, tag: string)
  {
    forall k :: 0 <= k < |out| ==> Tagged(out[k], "*") || Tagged(out[k], tag)
  }

  /** The line is a valid tag, a space, and the command word `auth` in any letter case. */
  predicate IsAuthLine(l: string)
  {
    var i := IndexOf(l, ' ');
    i > 0 && ValidTag(l[..i]) && CommandKey(l[i + 1..]) == "auth"
  }

  /**
   * What is written once a handler has run: the status buffer as one untagged
   * line, then the response buffer as one line under the tag, each only when
   * it is non-empty.
   */
  function Flush(tag: string, r: Reply): (out: seq<string>)
    ensures |out| == (if r.status != "" then 1 else 0) + (if r.response != "" then 1 else 0)
    ensures r.status != "" ==> out[0] == "* " + r.status + "\n"
    ensures r.response != "" ==> out[|out| - 1] == tag + " " + r.response + "\n"
  {
    (if |r.status| > 0 then [WriteStatus(r.status)] else [])
    + (if |r.response| > 0 then [WriteLineTag(tag, r.response)] else [])
  }

  /**
   * The body of handleConn's loop for one line read. Every line written is
   * untagged or carries the text before the line's first space; at most two are
   * written; only the authentication flag can change, and only on an auth line,
   * which is also the only line that can panic.
   */
  function Step(s: Session, l: string): (r: StepResult)
    ensures r.Next? ==> |r.out| <= 2
    ensures r.Next? ==> r.session.(auth := s.auth) == s
  {
    var recvTagEnd := IndexOf(l, ' ') - 1;
    if recvTagEnd < 0 then
      // the not-found reply would go to a buffer that is never written
      Next([], s)
    else
      var split := Split(l, ' ');
      StepTagged(s, l, split[1 := ToLower(split[1])])
  }

  /**
   * The branch of Step for a line with a tag: `splitL` is the line split at
   * every space, with its second piece lower-cased.
   */
  function StepTagged(s: Session, l: string, splitL: seq<string>): (r: StepResult)
    requires |splitL| >= 2
    ensures r.Next? ==> |r.out| <= 2
    ensures r.Next? ==> r.session.(auth := s.auth) == s
  {
    var tagStr := splitL[0];
    if !ValidTag(tagStr) then
      Next(Flush(tagStr, Invoke(CommandNotFound, l, IsAuth(s))), s)
    else if splitL[1] == "auth" then
      if |splitL| < 3 then Panic
      else Next(Flush(tagStr, Reply("", "")), Sessions.Authenticate(s, splitL[1], splitL[2]))
    else
      Next(Flush(tagStr, Dispatch(s.srvMux, Join(splitL[1..], ' '), IsAuth(s))), s)
  }

  /** A client line with a tag: the tag, one space, and what follows. */
  function TaggedLine(tag: string, after: string): string
  {
    tag + (" " + after)
  }

  /** The tag of a tagged line ends at the first space, and the split puts it first. */
  lemma ParseTag(tag: string, after: string)
    requires tag != [] && ' ' !in tag
    ensures IndexOf(TaggedLine(tag, after), ' ') == |tag|
    ensures Split(TaggedLine(tag, after), ' ') == [tag] + Split(after, ' ')
  {
    var tail := " " + after;
    var l := tag + tail;
    assert l[..|tag|] == tag;
    IndexOfIs(l, ' ', |tag|);
    SplitFirstWord(tag, ' ', tail);
    assert tail[1..] == after;
  }

  /** Step on a tagged line takes the tagged branch, on the split after the tag with its first piece lower-cased. */
  lemma StepOfTagged(s: Session, tag: string, after: string)
    requires tag != [] && ' ' !in tag
    ensures Step(s, TaggedLine(tag, after))
         == StepTagged(s, TaggedLine(tag, after), [tag] + Split(after, ' ')[0 := ToLower(Split(after, ' ')[0])])
  {
    ParseTag(tag, after);
    var split := Split(TaggedLine(tag, after), ' ');
    assert split[1 := ToLower(split[1])] == [tag] + Split(after, ' ')[0 := ToLower(Split(after, ' ')[0])];
  }

  /**
   * Rejoining the pieces of `w + rest` with `w` lower-cased gives the
   * lower-cased word followed by the unchanged rest.
   */
  lemma RejoinLowered(w: string, rest: string)
    requires ' ' !in w
    requires rest == [] || rest[0] == ' '
    ensures Split(w + rest, ' ')[0] == w
    ensures Join(Split(w + rest, ' ')[0 := ToLower(w)], ' ') == ToLower(w) + rest
  {
    var parts := Split(w + rest, ' ');
    SplitFirstWord(w, ' ', rest);
    JoinReplaceFirst(parts, ToLower(w), ' ');
    JoinSplit(w + rest, ' ');
    assert (w + rest)[|w|..] == rest;
  }

  /**
   * A line with no space, or whose first space is its first character, writes
   * nothing at all (the not-found reply is never flushed) and leaves the session as it was.
   */
  lemma StepNoTag(s: Session, l: string)
    requires ' ' !in l || l[0] == ' '
    ensures Step(s, l) == Next([], s)
  {
  }

  /**
   * A line whose tag is not alphanumeric is answered with the not-found text
   * under that same tag, echoed verbatim; the router is not consulted.
   */
  lemma StepInvalidTag(s: Session, tag: string, after: string)
    requires tag != [] && ' ' !in tag && !ValidTag(tag)
    ensures Step(s, TaggedLine(tag, after)) == Next([tag + " " + NotFoundText + "\n"], s)
  {
    StepOfTagged(s, tag, after);
  }

  /**
   * `tag auth p ...`: the flag becomes the auth handler's verdict on the
   * literal user name "auth" and the password `p`, the third piece of the line;
   * nothing is written and the router is not consulted.
   */
  lemma StepAuthCommand(s: Session, tag: string, w: string, password: string, rest: string)
    requires tag != [] && ValidTag(tag) && ' ' !in w && ' ' !in password
    requires ToLower(w) == "auth"
    requires rest == [] || rest[0] == ' '
    ensures Step(s, TaggedLine(tag, w + (" " + (password + rest))))
         == Next([], s.(auth := Handlers.Authenticate(s.authHandle, "auth", password)))
  {
    ValidTagHasNoSpace(tag);
    var after := w + (" " + (password + rest));
    StepOfTagged(s, tag, after);
    SplitFirstWord(w, ' ', " " + (password + rest));
    assert (" " + (password + rest))[1..] == password + rest;
    SplitFirstWord(password, ' ', rest);
    var splitL := [tag] + Split(after, ' ')[0 := ToLower(w)];
    assert |splitL| >= 3 && splitL[0] == tag && splitL[1] == "auth" && splitL[2] == password;
  }

  /** `tag auth` with no third piece indexes past the end of the split: the server panics. */
  lemma StepAuthMissingPassword(s: Session, tag: string, w: string)
    requires tag != [] && ValidTag(tag) && ' ' !in w
    requires ToLower(w) == "auth"
    ensures Step(s, TaggedLine(tag, w)) == Panic
  {
    ValidTagHasNoSpace(tag);
    StepOfTagged(s, tag, w);
    assert w + "" == w;
    SplitFirstWord(w, ' ', "");
  }

  /**
   * Any other command: the router receives the line after the tag with its
   * command word lower-cased, and the authentication flag as it was before the
   * line; its status buffer is written untagged and its response buffer under
   * the tag. The session does not change.
   */
  lemma StepDispatch(s: Session, tag: string, w: string, rest: string)
    requires tag != [] && ValidTag(tag) && ' ' !in w
    requires ToLower(w) != "auth"
    requires rest == [] || rest[0] == ' '
    ensures Step(s, TaggedLine(tag, w + rest))
         == Next(Flush(tag, Dispatch(s.srvMux, ToLower(w) + rest, s.auth)), s)
  {
    ValidTagHasNoSpace(tag);
    StepOfTagged(s, tag, w + rest);
    RejoinLowered(w, rest);
    var splitL := [tag] + Split(w + rest, ' ')[0 := ToLower(w)];
    assert splitL[1..] == Split(w + rest, ' ')[0 := ToLower(w)];
  }

  /**
   * Any line with a tag is a tagged line `tag`, `w + rest`: the tag before the
   * first space, the command word `w` up to the next space, and the rest
   * (empty or starting with a space).
   */
  lemma Decompose(l: string) returns (tag: string, w: string, rest: string)
    requires IndexOf(l, ' ') > 0
    ensures tag == l[..IndexOf(l, ' ')] && tag != [] && ' ' !in tag && ' ' !in w
    ensures rest == [] || rest[0] == ' '
    ensures l == TaggedLine(tag, w + rest)
    ensures CommandKey(l[IndexOf(l, ' ') + 1..]) == ToLower(w)
  {
    var after;
    tag, after := SplitTag(l);
    w, rest := FirstPiece(after, ' ');
    CommandKeyOf(w, rest);
  }

  /** A line with a tag is the tagged line of the text before and after its first space. */
  lemma SplitTag(l: string) returns (tag: string, after: string)
    requires IndexOf(l, ' ') > 0
    ensures tag == l[..IndexOf(l, ' ')] && after == l[IndexOf(l, ' ') + 1..]
    ensures l == TaggedLine(tag, after)
  {
    var i := IndexOf(l, ' ');
    tag, after := l[..i], l[i + 1..];
    assert l == l[..i] + ([l[i]] + l[i + 1..]);
  }

  /**
   * An auth line with a third piece: whatever follows the command word, the
   * verdict is taken on the user name "auth" and the third piece of the line
   * as password, and nothing is written.
   */
  lemma StepAuthLine(s: Session, tag: string, w: string, rest: string)
    requires tag != [] && ValidTag(tag) && ' ' !in w
    requires ToLower(w) == "auth"
    requires rest != [] && rest[0] == ' '
    ensures Step(s, TaggedLine(tag, w + rest))
         == Next([], s.(auth := Handlers.Authenticate(s.authHandle, "auth", Split(rest[1..], ' ')[0])))
  {
    var password, more := FirstPiece(rest[1..], ' ');
    assert rest == " " + (password + more);
    StepAuthCommand(s, tag, w, password, more);
  }

  /** A line that is not an auth line never panics and leaves the session unchanged. */
  lemma StepNonAuthLine(s: Session, l: string)
    requires !IsAuthLine(l)
    ensures Step(s, l).Next? && Step(s, l).session == s
  {
    if IndexOf(l, ' ') <= 0 {
      StepNoTag(s, l);
    } else {
      StepNonAuthWithTag(s, l);
    }
  }

  /** StepNonAuthLine for a line with a tag, through its decomposition. */
  lemma StepNonAuthWithTag(s: Session, l: string)
    requires IndexOf(l, ' ') > 0 && !IsAuthLine(l)
    ensures Step(s, l).Next? && Step(s, l).session == s
  {
    var tag, w, rest := Decompose(l);
    assert !ValidTag(tag) || ToLower(w) != "auth";
    StepTaggedNonAuth(s, tag, w, rest);
  }

  /** The tagged-line form of StepNonAuthLine: an invalid tag, or a command word other than auth. */
  lemma StepTaggedNonAuth(s: Session, tag: string, w: string, rest: string)
    requires tag != [] && ' ' !in tag && ' ' !in w
    requires rest == [] || rest[0] == ' '
    requires !ValidTag(tag) || ToLower(w) != "auth"
    ensures Step(s, TaggedLine(tag, w + rest)).Next? && Step(s, TaggedLine(tag, w + rest)).session == s
  {
    if !ValidTag(tag) {
      StepInvalidTag(s, tag, w + rest);
    } else {
      StepDispatch(s, tag, w, rest);
    }
  }

  /**
   * Every line Step writes is either untagged ("* ") or carries the line's tag,
   * echoed verbatim; a line without a tag writes nothing.
   */
  lemma StepEchoesTag(s: Session, l: string)
    ensures Step(s, l).Next? && IndexOf(l, ' ') <= 0 ==> Step(s, l).out == []
    ensures Step(s, l).Next? && IndexOf(l, ' ') > 0 ==> AllTaggedOr(Step(s, l).out, l[..IndexOf(l, ' ')])
  {
    if IndexOf(l, ' ') <= 0 {
      StepNoTag(s, l);
    } else {
      StepEchoesWithTag(s, l);
    }
  }

  /** StepEchoesTag for a line with a tag, through its decomposition. */
  lemma StepEchoesWithTag(s: Session, l: string)
    requires IndexOf(l, ' ') > 0
    ensures Step(s, l).Next? ==> AllTaggedOr(Step(s, l).out, l[..IndexOf(l, ' ')])
  {
    var tag, w, rest := Decompose(l);
    StepTaggedEchoesTag(s, tag, w, rest);
  }

  /** The tagged-line form of StepEchoesTag. */
  lemma StepTaggedEchoesTag(s: Session, tag: string, w: string, rest: string)
    requires tag != [] && ' ' !in tag && ' ' !in w
    requires rest == [] || rest[0] == ' '
    ensures Step(s, TaggedLine(tag, w + rest)).Next? ==> AllTaggedOr(Step(s, TaggedLine(tag, w + rest)).out, tag)
  {
    if !ValidTag(tag) {
      StepInvalidTag(s, tag, w + rest);
      FlushTagged(tag, Reply("", NotFoundText));
    } else if ToLower(w) == "auth" {
      if rest == [] {
        assert w + rest == w;
        StepAuthMissingPassword(s, tag, w);
      } else {
        StepAuthLine(s, tag, w, rest);
      }
    } else {
      StepDispatch(s, tag, w, rest);
      FlushTagged(tag, Dispatch(s.srvMux, ToLower(w) + rest, s.auth));
    }
  }

  /** Every line Flush writes is untagged or under the given tag. */
  lemma FlushTagged(tag: string, r: Reply)
    ensures AllTaggedOr(Flush(tag, r), tag)
  {
    var out := Flush(tag, r);
    forall k | 0 <= k < |out|
      ensures Tagged(out[k], "*") || Tagged(out[k], tag)
    {
      if r.status != "" && k == 0 {
        assert out[0][..1] == "*";
      } else {
        assert out[k] == tag + " " + r.response + "\n";
        assert out[k][..|tag|] == tag;
      }
    }
  }

  /** Why a connection loop stopped. */
  datatype Ending =
    | ReadError   // the input ran out before a full line: ReadLine failed
    | Panicked    // an auth line without a third piece
    | Closed      // the session was marked closed

  /** What a connection loop wrote, the session it left, and why it stopped. */
  datatype Trace = Trace(out: seq<string>, session: Session, ending: Ending)

  /**
   * handleConn over the lines a connection delivers, in order, with the input
   * running out after the last one. Only the authentication flag ever changes,
   * and nothing sets `closed`: the loop stops as closed exactly when the session
   * started closed.
   */
  function Serve(s: Session, lines: seq<string>): (t: Trace)
    ensures t.session.(auth := s.auth) == s
    ensures s.closed <==> t.ending == Closed
    decreases |lines|
  {
    if s.closed then Trace([], s, Closed)
    else if |lines| == 0 then Trace([], s, ReadError)
    else
      match Step(s, lines[0])
      case Panic => Trace([], s, Panicked)
      case Next(out, s') => Prepend(out, Serve(s', lines[1..]))
  }

  /** The lines of one step written ahead of the rest of the run. */
  function Prepend(out: seq<string>, t: Trace): Trace
  {
    t.(out := out + t.out)
  }

  /**
   * handleConn on the raw text of a connection: read a line, step, repeat,
   * until a read fails, a line panics, or the session is closed.
   */
  function HandleConn(s: Session, input: string): (t: Trace)
    ensures t.session.(auth := s.auth) == s
    ensures s.closed <==> t.ending == Closed
    decreases |input|
  {
    if s.closed then Trace([], s, Closed)
    else
      match ReadLine(input)
      case None => Trace([], s, ReadError)
      case Some((l, rest)) =>
        match Step(s, l)
        case Panic => Trace([], s, Panicked)
        case Next(out, s') => Prepend(out, HandleConn(s', rest))
  }

  /** A raw line as ReadString delivers it: a single newline, at its end. */
  predicate IsRawLine(x: string)
  {
    |x| >= 1 && x[|x| - 1] == '\n' && '\n' !in x[..|x| - 1]
  }

  /** The text made of the given pieces in order. */
  function Concat(pieces: seq<string>): string
  {
    if |pieces| == 0 then "" else pieces[0] + Concat(pieces[1..])
  }

  /** The lines ReadLine hands out for the given raw lines, one for each, whatever input follows. */
  function Stripped(raws: seq<string>): (lines: seq<string>)
    requires forall k :: 0 <= k < |raws| ==> IsRawLine(raws[k])
    ensures |lines| == |raws|
    ensures forall k, rest :: 0 <= k < |raws| ==> ReadLine(raws[k] + rest) == Some((lines[k], rest))
  {
    assert forall k, rest :: 0 <= k < |raws| ==> ReadLine(raws[k] + rest) == Some((RemoveCRLF(raws[k]), rest)) by {
      forall k, rest | 0 <= k < |raws|
        ensures ReadLine(raws[k] + rest) == Some((RemoveCRLF(raws[k]), rest))
      {
        ReadStringOfRawLine(raws[k], rest);
      }
    }
    seq(|raws|, k requires 0 <= k < |raws| => RemoveCRLF(raws[k]))
  }

  /** ReadString delivers a raw line at the front of the input whole. */
  lemma ReadStringOfRawLine(raw: string, rest: string)
    requires IsRawLine(raw)
    ensures ReadString(raw + rest) == Some((raw, rest))
  {
    var input := raw + rest;
    assert input[..|raw| - 1] == raw[..|raw| - 1];
    IndexOfIs(input, '\n', |raw| - 1);
    assert input[..|raw|] == raw;
    assert input[|raw|..] == rest;
  }

  /**
   * Running handleConn on a stream of raw lines, followed by an unterminated
   * tail, is the fold of Step over the lines with "\r\n" removed: the tail is
   * never processed.
   */
  lemma {:induction false} HandleConnIsServe(s: Session, raws: seq<string>, tail: string)
    requires forall k :: 0 <= k < |raws| ==> IsRawLine(raws[k])
    requires '\n' !in tail
    ensures HandleConn(s, Concat(raws) + tail) == Serve(s, Stripped(raws))
    decreases |raws|
  {
    if s.closed {
    } else if |raws| == 0 {
      assert Concat(raws) + tail == tail;
    } else {
      var rest := Concat(raws[1..]) + tail;
      ConcatFirst(raws, tail);
      var l := RemoveCRLF(raws[0]);
      StrippedFirst(raws);
      var lines := Stripped(raws);
      HandleConnOfRawLine(s, raws[0], rest);
      ServeOfFirstLine(s, lines);
      if Step(s, l).Next? {
        var out, s' := Step(s, l).out, Step(s, l).session;
        HandleConnIsServe(s', raws[1..], tail);
        calc {
          HandleConn(s, Concat(raws) + tail);
          HandleConn(s, raws[0] + rest);
          Prepend(out, HandleConn(s', rest));
          Prepend(out, Serve(s', Stripped(raws[1..])));
          Prepend(out, Serve(s', lines[1..]));
          Serve(s, lines);
        }
      }
    }
  }

  /** The raw input of a non-empty sequence of lines is its first line followed by the rest. */
  lemma ConcatFirst(raws: seq<string>, tail: string)
    requires |raws| > 0
    ensures Concat(raws) + tail == raws[0] + (Concat(raws[1..]) + tail)
  {
  }

  /** Stripping a non-empty sequence strips its first line, then the others. */
  lemma StrippedFirst(raws: seq<string>)
    requires |raws| > 0
    requires forall k :: 0 <= k < |raws| ==> IsRawLine(raws[k])
    ensures Stripped(raws)[0] == RemoveCRLF(raws[0])
    ensures Stripped(raws)[1..] == Stripped(raws[1..])
  {
  }

  /** handleConn on input that starts with a raw line: Step that line, then carry on with the rest. */
  lemma HandleConnOfRawLine(s: Session, raw: string, rest: string)
    requires !s.closed && IsRawLine(raw)
    ensures Step(s, RemoveCRLF(raw)).Panic? ==> HandleConn(s, raw + rest) == Trace([], s, Panicked)
    ensures Step(s, RemoveCRLF(raw)).Next? ==>
      HandleConn(s, raw + rest) == Prepend(Step(s, RemoveCRLF(raw)).out, HandleConn(Step(s, RemoveCRLF(raw)).session, rest))
  {
    ReadStringOfRawLine(raw, rest);
    assert ReadLine(raw + rest) == Some((RemoveCRLF(raw), rest));
  }

  /** Serve on a non-empty sequence of lines: Step the first, then carry on with the others. */
  lemma ServeOfFirstLine(s: Session, lines: seq<string>)
    requires !s.closed && |lines| > 0
    ensures Step(s, lines[0]).Panic? ==> Serve(s, lines) == Trace([], s, Panicked)
    ensures Step(s, lines[0]).Next? ==>
      Serve(s, lines) == Prepend(Step(s, lines[0]).out, Serve(Step(s, lines[0]).session, lines[1..]))
  {
  }

  /** With no auth line among the lines, the session ends exactly as it began and nothing panics. */
  lemma {:induction false} NoAuthLineNoChange(s: Session, lines: seq<string>)
    requires forall k :: 0 <= k < |lines| ==> !IsAuthLine(lines[k])
    ensures Serve(s, lines).session == s
    ensures Serve(s, lines).ending != Panicked
    decreases |lines|
  {
    if !s.closed && |lines| > 0 {
      StepNonAuthLine(s, lines[0]);
      NoAuthLineNoChange(s, lines[1..]);
    }
  }

  /** Under the deny-all auth handler a session never becomes authenticated, one line at a time... */
  lemma StepUnderDummyAuth(s: Session, l: string)
    requires s.authHandle == DummyAuth && !s.auth
    ensures Step(s, l).Next? ==> !Step(s, l).session.auth
  {
  }

  /** ...and so over a whole connection. */
  lemma {:induction false} DummyAuthNeverAuthenticates(s: Session, lines: seq<string>)
    requires s.authHandle == DummyAuth && !s.auth
    ensures !Serve(s, lines).session.auth
    decreases |lines|
  {
    if !s.closed && |lines| > 0 {
      StepUnderDummyAuth(s, lines[0]);
      if Step(s, lines[0]).Next? {
        DummyAuthNeverAuthenticates(Step(s, lines[0]).session, lines[1..]);
      }
    }
  }

  /** A new session with the default auth handler ends every connection unauthenticated, and never as closed. */
  lemma NewSessionStaysUnauthenticated(defaultMux: ServeMux, timeout: int, lines: seq<string>)
    ensures !Serve(NewSession(defaultMux, timeout), lines).session.auth
    ensures Serve(NewSession(defaultMux, timeout), lines).ending != Closed
  {
    DummyAuthNeverAuthenticates(NewSession(defaultMux, timeout), lines);
  }

  /** Two lines, the first writing nothing: the output is what the second line writes in the session the first left. */
  lemma ServeSilentThenOne(s: Session, l1: string, l2: string, s': Session)
    requires !s.closed
    requires Step(s, l1) == Next([], s')
    ensures Step(s', l2).Next? ==> Serve(s, [l1, l2]).out == Step(s', l2).out
  {
    assert [l1, l2][0] == l1 && [l1, l2][1..] == [l2];
    assert Serve(s, [l1, l2]).out == Serve(s', [l2]).out;
    if Step(s', l2).Next? {
      var s'' := Step(s', l2).session;
      assert !s''.closed;
      assert [l2][0] == l2 && [l2][1..] == [];
      assert Serve(s'', []).out == [];
      assert Serve(s', [l2]).out == Step(s', l2).out + [];
    }
  }

  /**
   * The verdict of an auth line is what the router passes as the
   * authentication snapshot to the handler of the next command.
   */
  lemma AuthVerdictReachesNextCommand(s: Session, tag1: string, w1: string, password: string,
                                      tag2: string, w2: string, rest2: string)
    requires !s.closed
    requires tag1 != [] && ValidTag(tag1) && ' ' !in w1 && ' ' !in password && ToLower(w1) == "auth"
    requires tag2 != [] && ValidTag(tag2) && ' ' !in w2 && ToLower(w2) != "auth"
    requires rest2 == [] || rest2[0] == ' '
    ensures Serve(s, [TaggedLine(tag1, w1 + (" " + password)), TaggedLine(tag2, w2 + rest2)]).out
         == Flush(tag2, Dispatch(s.srvMux, ToLower(w2) + rest2, Handlers.Authenticate(s.authHandle, "auth", password)))
  {
    var l1, l2 := TaggedLine(tag1, w1 + (" " + password)), TaggedLine(tag2, w2 + rest2);
    var s' := s.(auth := Handlers.Authenticate(s.authHandle, "auth", password));
    assert password + [] == password;
    StepAuthCommand(s, tag1, w1, password, []);
    StepDispatch(s', tag2, w2, rest2);
    ServeSilentThenOne(s, l1, l2, s');
  }
}
