/**
 * What the two P1 web servers share: the start-up checks on the command
 * line and the port, reading the target out of a GET request line, and the
 * shape of an HTTP/1.1 response (status line, header lines joined by CRLF,
 * a blank line, then the body).
 */
module Http {
  import opened Base

  const CRLF: string := "\r\n"

  /** The blank line that ends the header block. */
  const BLANK: string := "\r\n\r\n"

  // ---------------------------------------------------------------------------
  // Start-up checks

  /** The listening port must be a non-reserved TCP port; anything else exits with status 7. */
  function CheckPortValidity(port: int): (r: Result<()>)
    ensures r.Ok? <==> 1024 <= port <= 65535
    ensures !r.Ok? ==> r == Exit(7)
  {
    if port < 1024 then Exit(7)
    else if port > 65535 then Exit(7)
    else Ok(())
  }

  /** `sys.argv` must hold the program name and exactly one argument; anything else exits with status 7. */
  function CheckArgumentFormat(args: seq<string>): (r: Result<()>)
    ensures r.Ok? <==> |args| == 2
    ensures !r.Ok? ==> r == Exit(7)
  {
    if |args| != 2 then Exit(7) else Ok(())
  }

  // ---------------------------------------------------------------------------
  // The request line

  /**
   * The target of a request: the first line is cut at single spaces; the
   * first token must be `GET`, a third token must exist (else `IndexError`)
   * and must not start with `HTTPS`; the second token is the target.
   */
  function RequestTarget(request: string): (r: Result<string>)
    ensures r.Ok? || r == Exit(7) || r == Raised(IndexError)
    ensures r.Ok? ==> var tokens := Split(Split(request, CRLF)[0], " ");
      |tokens| >= 3 && tokens[0] == "GET" && r.value == tokens[1] && !StartsWith(tokens[2], "HTTPS")
  {
    var line := Split(request, CRLF)[0];
    var tokens := Split(line, " ");
    if tokens[0] != "GET" then Exit(7)
    else if |tokens| < 3 then Raised(IndexError)
    else if StartsWith(tokens[2], "HTTPS") then Exit(7)
    else Ok(tokens[1])
  }

  /**
   * A request whose first line is the space-separated `tokens` is judged on
   * those tokens alone, whatever follows the first CRLF.
   */
  lemma RequestLineRead(tokens: seq<string>, rest: string)
    requires |tokens| >= 1
    requires forall i :: 0 <= i < |tokens| ==> ' ' !in tokens[i] && '\r' !in tokens[i]
    ensures RequestTarget(Join(tokens, " ") + CRLF + rest) ==
      if tokens[0] != "GET" then Exit(7)
      else if |tokens| < 3 then Raised(IndexError)
      else if StartsWith(tokens[2], "HTTPS") then Exit(7)
      else Ok(tokens[1])
  {
    var line := Join(tokens, " ");
    JoinFree(tokens, " ", '\r');
    SplitAt(line, CRLF, rest);
    SplitJoin(tokens, " ");
  }

  // ---------------------------------------------------------------------------
  // Response text

  /** `"HTTP/1.1 " + str(code) + " " + phrase`. */
  function StatusLine(code: nat, phrase: string): string {
    "HTTP/1.1 " + NatToString(code) + " " + phrase
  }

  /** A header line `name: value`. */
  function Field(name: string, value: string): string {
    name + ": " + value
  }

  /** Header lines, each ended by CRLF, then CRLF, then the body. */
  function Message(lines: seq<string>, body: string): string {
    Lines(lines) + CRLF + body
  }

  /** A message starts with its first line and ends with the blank line and its body. */
  lemma LinesEnd(lines: seq<string>)
    requires |lines| >= 1
    ensures forall body :: StartsWith(Message(lines, body), lines[0] + CRLF) && EndsWith(Message(lines, body), BLANK + body)
  {
    JoinLines(lines);
    forall body ensures StartsWith(Message(lines, body), lines[0] + CRLF) && EndsWith(Message(lines, body), BLANK + body) {
      var m := Message(lines, body);
      assert m == Join(lines, CRLF) + (BLANK + body);
      assert m == lines[0] + CRLF + (Lines(lines[1..]) + CRLF + body);
    }
  }

  /** Header lines, each followed by CRLF, make up their join followed by one CRLF. */
  lemma {:induction false} JoinLines(lines: seq<string>)
    requires |lines| >= 1
    ensures Join(lines, CRLF) + CRLF == Lines(lines)
    decreases |lines|
  {
    if |lines| > 1 {
      JoinLines(lines[1..]);
    }
  }

  /** Each line followed by its own CRLF. */
  function Lines(lines: seq<string>): string
    decreases |lines|
  {
    if lines == [] then [] else lines[0] + CRLF + Lines(lines[1..])
  }

  /** A text that starts with a status line and CRLF starts with the protocol name. */
  lemma StatusLineStart(code: nat, phrase: string, r: string)
    requires StartsWith(r, StatusLine(code, phrase) + CRLF)
    ensures StartsWith(r, "HTTP/1.1 ")
  {
    assert (StatusLine(code, phrase) + CRLF)[..9] == "HTTP/1.1 ";
  }

  /** Proof aid: three lines, each ended by CRLF, spelled out. */
  lemma LinesOfThree(a: string, b: string, c: string)
    ensures Lines([a, b, c]) == a + CRLF + b + CRLF + c + CRLF
  {
    assert [a, b, c][1..] == [b, c];
    assert [b, c][1..] == [c];
    assert [c][1..] == [];
    assert Lines([c]) == c + CRLF + [];
    assert c + CRLF + [] == c + CRLF;
    calc {
      Lines([a, b, c]);
      a + CRLF + (b + CRLF + (c + CRLF));
      a + CRLF + b + CRLF + c + CRLF;
    }
  }

  /** A line that can sit in a header block: not empty, no carriage return. */
  predicate HeaderLine(l: string) {
    |l| > 0 && '\r' !in l
  }

  lemma OccursAtShift<T>(s: seq<T>, p: seq<T>, k: int, i: int)
    requires 0 <= k <= |s| && 0 <= i
    ensures OccursAt(s[k..], p, i) <==> OccursAt(s, p, i + k)
  {
    if i + |p| <= |s| - k {
      assert s[k..][i..i + |p|] == s[i + k..i + k + |p|];
    }
  }

  /** Header lines joined by CRLF never hold a blank line, whatever follows them. */
  lemma {:induction false} NoBlankInHead(lines: seq<string>, tail: string, i: int)
    requires |lines| >= 1 && forall k :: 0 <= k < |lines| ==> HeaderLine(lines[k])
    requires 0 <= i < |Join(lines, CRLF)|
    ensures !OccursAt(Join(lines, CRLF) + tail, BLANK, i)
    decreases |lines|
  {
    var l0 := lines[0];
    assert HeaderLine(l0);
    if |lines| == 1 {
      AvoidsNoOccurrence(l0, BLANK, tail, i);
    } else {
      var rest := lines[1..];
      var t := Join(rest, CRLF) + tail;
      var s := Join(lines, CRLF) + tail;
      assert s == l0 + (CRLF + t);
      assert s[|l0| + 2..] == t;
      if i < |l0| {
        AvoidsNoOccurrence(l0, BLANK, CRLF + t, i);
      } else if i == |l0| {
        assert HeaderLine(rest[0]);
        assert Join(rest, CRLF)[0] == rest[0][0];
        if i + 4 <= |s| {
          assert s[i..i + 4][2] == t[0] == rest[0][0];
        }
      } else if i == |l0| + 1 {
        if i + 4 <= |s| {
          assert s[i..i + 4][0] == '\n';
        }
      } else {
        forall k | 0 <= k < |rest| ensures HeaderLine(rest[k]) {
          assert rest[k] == lines[k + 1];
        }
        NoBlankInHead(rest, tail, i - |l0| - 2);
        OccursAtShift(s, BLANK, |l0| + 2, i - |l0| - 2);
      }
    }
  }

  /** The first blank line of a message is the one after its header lines. */
  lemma MessageHead(lines: seq<string>, body: string)
    requires |lines| >= 1 && forall k :: 0 <= k < |lines| ==> HeaderLine(lines[k])
    ensures Split(Message(lines, body), BLANK) == [Join(lines, CRLF)] + Split(body, BLANK)
  {
    var head := Join(lines, CRLF);
    var s := Message(lines, body);
    JoinLines(lines);
    assert s == head + (BLANK + body);
    assert |BLANK| == 4 && s[|head|..|head| + 4] == BLANK;
    assert OccursAt(s, BLANK, |head|);
    forall i | 0 <= i < |head| ensures !OccursAt(s, BLANK, i) {
      NoBlankInHead(lines, BLANK + body, i);
    }
    assert Find(s, BLANK) == |head|;
    assert s[..|head|] == head;
    assert s[|head| + 4..] == body;
  }

  /** A status line alone, ended by one CRLF, holds no blank line. */
  lemma StatusOnlyHasNoBlank(code: nat, phrase: string)
    requires '\r' !in phrase
    ensures !Contains(StatusLine(code, phrase) + CRLF, BLANK)
  {
    var sl := StatusLine(code, phrase);
    assert '\r' !in sl;
    forall i | 0 <= i < |sl| ensures !OccursAt(sl + CRLF, BLANK, i) {
      AvoidsNoOccurrence(sl, BLANK, CRLF, i);
    }
  }
}
