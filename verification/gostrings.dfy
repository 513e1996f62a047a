/**
 * The Go standard-library string operations the server relies on, restricted to
 * what the server uses: strings.Index and strings.Split/Join with a one-character
 * separator, strings.ToLower on ASCII letters, and strings.Replace(s, "\r\n", "", -1).
 */
module GoStrings {

  /** strings.Index(s, string(c)): the position of the first c in s, or -1. */
  function IndexOf(s: string, c: char): (r: int)
    ensures -1 <= r < |s|
    ensures r == -1 <==> c !in s
    ensures r >= 0 ==> s[r] == c && c !in s[..r]
  {
    if |s| == 0 then -1
    else if s[0] == c then 0
    else
      var k := IndexOf(s[1..], c);
      if k == -1 then -1
      else
        assert s[..k + 1] == [s[0]] + s[1..][..k];
        k + 1
  }

  /** A position holding the first c is the one IndexOf reports. */
  lemma IndexOfIs(s: string, c: char, k: int)
    requires 0 <= k < |s| && s[k] == c && c !in s[..k]
    ensures IndexOf(s, c) == k
  {
  }

  /**
   * strings.Split(s, string(sep)): the maximal pieces of s between separators,
   * empty pieces included; a string without sep splits into itself.
   */
  function Split(s: string, sep: char): (parts: seq<string>)
    ensures |parts| >= 1
    ensures |parts| == 1 <==> sep !in s
    decreases |s|
  {
    var k := IndexOf(s, sep);
    if k == -1 then [s] else [s[..k]] + Split(s[k + 1..], sep)
  }

  /**
   * The pieces of a split hold no separator, and the first piece is the text
   * before the first separator (all of s when there is none).
   */
  lemma {:induction false} SplitPieces(s: string, sep: char)
    ensures forall i :: 0 <= i < |Split(s, sep)| ==> sep !in Split(s, sep)[i]
    ensures |Split(s, sep)[0]| <= |s| && s[..|Split(s, sep)[0]|] == Split(s, sep)[0]
    ensures |Split(s, sep)[0]| < |s| ==> s[|Split(s, sep)[0]|] == sep
    decreases |s|
  {
    var k := IndexOf(s, sep);
    if k != -1 {
      SplitPieces(s[k + 1..], sep);
    }
  }

  /** s as its first piece `w` followed by a remainder that is empty or starts with the separator. */
  lemma FirstPiece(s: string, sep: char) returns (w: string, rest: string)
    ensures w == Split(s, sep)[0] && sep !in w
    ensures rest == [] || rest[0] == sep
    ensures s == w + rest
  {
    SplitPieces(s, sep);
    w := Split(s, sep)[0];
    rest := s[|w|..];
    assert s == s[..|w|] + s[|w|..];
  }

  /** The total length of the pieces. */
  function PiecesLength(parts: seq<string>): nat
  {
    if |parts| == 0 then 0 else |parts[0]| + PiecesLength(parts[1..])
  }

  /**
   * strings.Join(parts, string(sep)): the pieces in order with one separator
   * between neighbours, so the result is as long as the pieces together plus
   * one per gap.
   */
  function Join(parts: seq<string>, sep: char): (r: string)
    ensures |parts| >= 1 ==> |r| == PiecesLength(parts) + |parts| - 1
  {
    if |parts| == 0 then ""
    else if |parts| == 1 then parts[0]
    else parts[0] + [sep] + Join(parts[1..], sep)
  }

  /** Joining a first piece onto at least one more. */
  lemma JoinCons(x: string, parts: seq<string>, sep: char)
    requires |parts| >= 1
    ensures Join([x] + parts, sep) == x + ([sep] + Join(parts, sep))
  {
    assert ([x] + parts)[1..] == parts;
  }

  /** The three parts of a + [c] + b, read back by slicing. */
  lemma AroundSeparator(a: string, c: char, b: string)
    ensures (a + ([c] + b))[..|a|] == a
    ensures (a + ([c] + b))[|a|] == c
    ensures (a + ([c] + b))[|a| + 1..] == b
  {
  }

  /** s cut around position k. */
  lemma CutAt(s: string, k: int)
    requires 0 <= k < |s|
    ensures s == s[..k] + ([s[k]] + s[k + 1..])
  {
  }

  /** Joining the pieces of a split with the same separator gives back the string. */
  lemma {:induction false} JoinSplit(s: string, sep: char)
    ensures Join(Split(s, sep), sep) == s
    decreases |s|
  {
    var k := IndexOf(s, sep);
    if k != -1 {
      var rest := s[k + 1..];
      SplitFirst(s, sep, k);
      JoinSplit(rest, sep);
      JoinCons(s[..k], Split(rest, sep), sep);
      CutAt(s, k);
    } else {
      assert Split(s, sep) == [s];
    }
  }

  /** Splitting a join of separator-free pieces gives back the pieces. */
  lemma {:induction false} SplitJoin(parts: seq<string>, sep: char)
    requires |parts| >= 1
    requires forall i :: 0 <= i < |parts| ==> sep !in parts[i]
    ensures Split(Join(parts, sep), sep) == parts
    decreases |parts|
  {
    if |parts| > 1 {
      var tail := Join(parts[1..], sep);
      assert parts == [parts[0]] + parts[1..];
      JoinCons(parts[0], parts[1..], sep);
      var s := parts[0] + ([sep] + tail);
      AroundSeparator(parts[0], sep, tail);
      SplitFirst(s, sep, |parts[0]|);
      SplitJoin(parts[1..], sep);
    }
  }

  /** Splitting s at its first separator: the first piece, then the split of the rest. */
  lemma SplitFirst(s: string, sep: char, k: int)
    requires 0 <= k < |s| && s[k] == sep && sep !in s[..k]
    ensures Split(s, sep) == [s[..k]] + Split(s[k + 1..], sep)
  {
    IndexOfIs(s, sep, k);
  }

  /** The first piece of a word followed by nothing or by a separator-led remainder is that word. */
  lemma SplitFirstWord(w: string, sep: char, rest: string)
    requires sep !in w
    requires rest == [] || rest[0] == sep
    ensures Split(w + rest, sep)[0] == w
    ensures rest != [] ==> Split(w + rest, sep) == [w] + Split(rest[1..], sep)
  {
    var s := w + rest;
    if rest == [] {
      assert s == w;
    } else {
      assert s[..|w|] == w;
      SplitFirst(s, sep, |w|);
      assert s[|w| + 1..] == rest[1..];
    }
  }

  /** Replacing the first piece before joining replaces the text that piece contributed. */
  lemma JoinReplaceFirst(parts: seq<string>, x: string, sep: char)
    requires |parts| >= 1
    ensures Join(parts[0 := x], sep) == x + Join(parts, sep)[|parts[0]|..]
  {
    if |parts| > 1 {
      assert parts[0 := x][1..] == parts[1..];
    }
  }

  predicate IsUpper(c: char)
  {
    'A' <= c <= 'Z'
  }

  /** The ASCII case mapping: upper-case letters to lower case, everything else unchanged. */
  function LowerChar(c: char): (d: char)
    ensures !IsUpper(d)
    ensures !IsUpper(c) ==> d == c
    ensures IsUpper(c) ==> 'a' <= d <= 'z' && d as int - c as int == 32
  {
    if IsUpper(c) then (c as int + 32) as char else c
  }

  /** strings.ToLower on ASCII text: the same length, character by character, with no upper-case letter left. */
  function ToLower(s: string): (r: string)
    ensures |r| == |s|
    ensures forall i :: 0 <= i < |s| ==> r[i] == LowerChar(s[i])
    ensures forall i :: 0 <= i < |r| ==> !IsUpper(r[i])
  {
    if |s| == 0 then "" else [LowerChar(s[0])] + ToLower(s[1..])
  }

  /** Lower-casing twice is lower-casing once. */
  lemma ToLowerIdempotent(s: string)
    ensures ToLower(ToLower(s)) == ToLower(s)
  {
  }

  /** Lower-casing neither creates nor removes a space. */
  lemma ToLowerKeepsSpaces(s: string)
    ensures ' ' in ToLower(s) <==> ' ' in s
  {
    if ' ' in s {
      var i :| 0 <= i < |s| && s[i] == ' ';
      assert ToLower(s)[i] == ' ';
    }
  }

  /** A string whose lower-case form is `w` can only be `w` itself if it has no upper-case letter. */
  lemma ToLowerFixesLower(s: string)
    requires forall i :: 0 <= i < |s| ==> !IsUpper(s[i])
    ensures ToLower(s) == s
  {
  }

  /** "\r\n" occurs somewhere in s. */
  predicate HasCRLF(s: string)
  {
    exists i :: 0 <= i < |s| - 1 && s[i] == '\r' && s[i + 1] == '\n'
  }

  /**
   * strings.Replace(s, "\r\n", "", -1): every occurrence of "\r\n", scanned left to
   * right, is deleted. The result equals s exactly when s holds no "\r\n", and is
   * shorter otherwise.
   */
  function RemoveCRLF(s: string): (r: string)
    ensures |r| <= |s|
    ensures !HasCRLF(s) ==> r == s
    ensures HasCRLF(s) ==> |r| < |s|
  {
    if |s| < 2 then s
    else if s[0] == '\r' && s[1] == '\n' then RemoveCRLF(s[2..])
    else
      assert HasCRLF(s) ==> HasCRLF(s[1..]) by {
        if HasCRLF(s) {
          var i :| 0 <= i < |s| - 1 && s[i] == '\r' && s[i + 1] == '\n';
          assert i > 0;
          assert s[1..][i - 1] == '\r';
        }
      }
      assert HasCRLF(s[1..]) ==> HasCRLF(s) by {
        if HasCRLF(s[1..]) {
          var i :| 0 <= i < |s[1..]| - 1 && s[1..][i] == '\r' && s[1..][i + 1] == '\n';
          assert s[i + 1] == '\r' && s[i + 2] == '\n';
        }
      }
      [s[0]] + RemoveCRLF(s[1..])
  }

  /**
   * The removal is a single left-to-right pass, so deleting one "\r\n" can bring
   * a new one together: "\r\r\n\n" becomes "\r\n".
   */
  lemma RemoveCRLFSinglePass()
    ensures HasCRLF(RemoveCRLF("\r" + "\r\n" + "\n"))
  {
    var s := "\r" + "\r\n" + "\n";
    assert s[1..][2..] == "\n";
    assert RemoveCRLF(s) == "\r" + "\n";
    assert ("\r" + "\n")[0] == '\r' && ("\r" + "\n")[1] == '\n';
  }

  /**
   * On a line that holds a single newline, at its end, RemoveCRLF drops a
   * "\r\n" terminator and leaves a bare "\n" in place.
   */
  lemma {:induction false} RemoveCRLFOfLine(body: string)
    requires '\n' !in body
    ensures |body| > 0 && body[|body| - 1] == '\r' ==> RemoveCRLF(body + "\n") == body[..|body| - 1]
    ensures (|body| == 0 || body[|body| - 1] != '\r') ==> RemoveCRLF(body + "\n") == body + "\n"
  {
    var s := body + "\n";
    if |body| == 1 {
      if body[0] != '\r' {
        assert s == [body[0]] + "\n";
        assert s[1..] == "\n";
      }
    } else if |body| >= 2 {
      assert s[1] == body[1] && body[1] != '\n';
      assert s[1..] == body[1..] + "\n";
      RemoveCRLFOfLine(body[1..]);
      assert [s[0]] + body[1..][..|body[1..]| - 1] == body[..|body| - 1];
    }
  }
}
