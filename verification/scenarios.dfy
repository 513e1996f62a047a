/**
 * Concrete exchanges on one connection, each following from the general
 * lemmas about Step: what the server writes for a few client lines.
 *
 * The lines are written as concatenations of their words ("A01" + " " + "NOOP")
 * and the facts about the literal pieces sit in small helper lemmas (NoopLine,
 * AuthLine, BareNoopLine): one literal compared character by character against
 * a concatenation is far costlier for the verifier than these word-sized steps.
 */
module Scenarios {
  import opened Wrappers
  import opened GoStrings
  import opened Handlers
  import opened Sessions
  import opened Connection

  /** A router whose only command, `noop`, answers "OK done" under the tag. */
  function NoopMux(): ServeMux
  {
    HandleFunc(NewServeMux(), "noop", (arg: string, auth: bool) => Reply("", "OK done"))
  }

  /** `A01 NOOP` reaches the lower-case registration and its answer goes out under the tag. */
  lemma NoopAnswered(s: Session)
    requires s.srvMux == NoopMux()
    ensures Step(s, "A01" + " " + "NOOP") == Next(["A01" + " " + "OK done" + "\n"], s)
  {
    NoopLine();
    StepDispatch(s, "A01", "NOOP", "");
    NoopRoutes(s.auth);
    ResponseOnly("A01", "OK done");
  }

  /** The pieces of the line `A01 NOOP`: a valid tag and a command word that lower-cases to `noop`. */
  lemma NoopLine()
    ensures ValidTag("A01") && ' ' !in "NOOP"
    ensures ToLower("NOOP") + "" == "noop" && ToLower("NOOP") != "auth"
    ensures "A01" + " " + "NOOP" == TaggedLine("A01", "NOOP" + "")
  {
    assert ToLower("NOOP") == "noop";
  }

  /** The `noop` handler of NoopMux answers "OK done" and writes no status. */
  lemma NoopRoutes(auth: bool)
    ensures Dispatch(NoopMux(), "noop", auth) == Reply("", "OK done")
  {
    assert "noop" + "" == "noop";
    assert ToLower("noop") == "noop";
    DispatchPassesWholeInput(NoopMux(), "noop", "", auth);
    assert ToLower("noop") == "noop";
  }

  /** A reply with only a response is written as one line under the tag. */
  lemma ResponseOnly(tag: string, text: string)
    requires text != ""
    ensures Flush(tag, Reply("", text)) == [tag + " " + text + "\n"]
  {
    var out := Flush(tag, Reply("", text));
    assert |out| == 1 && out[0] == tag + " " + text + "\n";
  }

  /** A line without a space is dropped without a reply. */
  lemma GarbageIsSilent(s: Session)
    ensures Step(s, "GARBAGE") == Next([], s)
  {
    StepNoTag(s, "GARBAGE");
  }

  /** A tag holding '!' is refused, and the refusal still carries that tag. */
  lemma InvalidTagEchoed(s: Session)
    ensures Step(s, "BAD!1" + " " + "NOOP") == Next(["BAD!1" + " " + NotFoundText + "\n"], s)
  {
    assert !IsAlnum("BAD!1"[3]);
    assert "BAD!1" + " " + "NOOP" == TaggedLine("BAD!1", "NOOP");
    StepInvalidTag(s, "BAD!1", "NOOP");
  }

  /** A gate that admits exactly the user alice with password secret. */
  function AliceGate(): AuthHandler
  {
    Gate((u: string, p: string) => u == "alice" && p == "secret")
  }

  /**
   * `A02 auth alice secret` does not authenticate alice: the gate is asked
   * about user "auth" with password "alice".
   */
  lemma AuthPassesLiteralUser(s: Session)
    requires s.authHandle == AliceGate()
    ensures Step(s, "A02" + " " + "auth" + " " + "alice" + " " + "secret") == Next([], s.(auth := false))
  {
    AuthLine();
    StepAuthCommand(s, "A02", "auth", "alice", " " + "secret");
  }

  /** The pieces of the line `A02 auth alice secret`. */
  lemma AuthLine()
    ensures ValidTag("A02") && ' ' !in "auth" && ' ' !in "alice" && ToLower("auth") == "auth"
    ensures "auth" != "alice"
    ensures "A02" + " " + "auth" + " " + "alice" + " " + "secret"
         == TaggedLine("A02", "auth" + (" " + ("alice" + (" " + "secret"))))
  {
  }

  /** A line ended by a bare newline keeps it, so its command word misses the `noop` registration. */
  lemma BareNewlineMissesHandler(s: Session)
    requires s.srvMux == NoopMux()
    ensures ReadLine("A01" + " " + "NOOP" + "\n") == Some(("A01" + " " + "NOOP" + "\n", ""))
    ensures Step(s, "A01" + " " + "NOOP" + "\n") == Next(["A01" + " " + NotFoundText + "\n"], s)
  {
    BareNoopLine();
    ReadLineBareLF("A01" + " " + "NOOP", "");
    StepDispatch(s, "A01", "NOOP\n", "");
    NoopMisses(s.auth);
    ResponseOnly("A01", NotFoundText);
  }

  /** The pieces of the line `A01 NOOP` with its bare newline still on. */
  lemma BareNoopLine()
    ensures ValidTag("A01") && ' ' !in "NOOP\n"
    ensures ToLower("NOOP\n") + "" == "noop\n" && ToLower("NOOP\n") != "auth"
    ensures '\n' !in "A01" + " " + "NOOP" && ("A01" + " " + "NOOP")[|"A01" + " " + "NOOP"| - 1] != '\r'
    ensures "A01" + " " + "NOOP" + "\n" + "" == "A01" + " " + "NOOP" + "\n"
    ensures "A01" + " " + "NOOP" + "\n" == TaggedLine("A01", "NOOP\n" + "")
  {
    assert ToLower("NOOP\n") == "noop\n";
  }

  /** The key `noop` followed by a newline is not registered in NoopMux. */
  lemma NoopMisses(auth: bool)
    ensures Dispatch(NoopMux(), ToLower("NOOP\n") + "", auth) == Reply("", NotFoundText)
  {
    BareNoopLine();
    CommandKeyOf("noop\n", "");
    ToLowerFixesLower("noop\n");
    assert "noop\n" != "noop";
  }
}
