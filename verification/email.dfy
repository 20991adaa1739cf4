/** The parsed inbound email the routing engine consumes, and the expansion of its
    recipient fields and `Received` headers into targets (src/EmailProcessor.ts). */
module Email {
  import opened Results
  import opened Text
  import opened Config

  type Bytes = seq<bv8>

  /** One mailbox of a `from`/`to`/`cc`/`bcc` list. A missing address is `""`. */
  datatype Address = Address(address: string, name: Option<string>)

  /** An attachment as the mail parser delivers it. */
  datatype Attachment = Attachment(generatedFileName: string, content: Bytes, contentType: string)

  /** One raw header line; the parser lower-cases `key`. */
  datatype HeaderLine = HeaderLine(key: string, line: string)

  /** The parsed message. Absent lists are empty; an absent DKIM or SPF verdict is
      `""`; an absent HTML part is `None`. */
  datatype InboundEmail = InboundEmail(
    messageId: string,
    from: seq<Address>,
    to: seq<Address>,
    cc: seq<Address>,
    bcc: seq<Address>,
    subject: string,
    text: string,
    html: Option<string>,
    headers: map<string, string>,
    headerLines: seq<HeaderLine>,
    attachments: seq<Attachment>,
    spamScore: Option<real>,
    dkim: string,
    spf: string)

  /** `IEmailTarget`: one recipient address and the field it came from. */
  datatype Target = Target(address: string, name: Option<string>, source: Source)

  /** Characters JavaScript's `.` does not match. */
  predicate IsLineTerminator(c: char) {
    c == '\n' || c == '\r' || c == '\U{2028}' || c == '\U{2029}'
  }

  /** The longest prefix of `s` without a line terminator. */
  function LineRun(s: string): (r: string)
    ensures |r| <= |s| && r == s[..|r|]
    ensures forall k :: 0 <= k < |r| ==> !IsLineTerminator(r[k])
    ensures |r| < |s| ==> IsLineTerminator(s[|r|])
  {
    if |s| == 0 || IsLineTerminator(s[0]) then "" else [s[0]] + LineRun(s[1..])
  }

  /** The capture of `/for <(.*)>/` for a match starting at `i`, if one starts there:
      the greedy group runs to the last `>` before the next line terminator. */
  function MatchAt(line: string, i: nat): Option<string>
  {
    if OccursAt(line, i, "for <") then
      var run := LineRun(line[i + 5..]);
      if '>' in run then Some(run[..LastIndexOf(run, '>')]) else None
    else None
  }

  function MatchFrom(line: string, i: nat): Option<string>
    decreases |line| - i
  {
    if i + 5 > |line| then None
    else if MatchAt(line, i).Some? then MatchAt(line, i)
    else MatchFrom(line, i + 1)
  }

  /** `line.match(/for <(.*)>/)`, giving the first group: the line holds
      `for <` + capture + `>` with no line break inside the capture. */
  function MatchFor(line: string): (r: Option<string>)
    ensures r.Some? ==> exists i: nat :: OccursAt(line, i, "for <" + r.value + ">")
    ensures r.Some? ==> forall k :: 0 <= k < |r.value| ==> !IsLineTerminator(r.value[k])
  {
    var r := MatchFrom(line, 0);
    if r.None? then r
    else
      MatchFromSound(line, 0);
      r
  }

  /** A match starting at `i` spells `for <` + capture + `>` there, and the capture has
      no line break. */
  lemma MatchAtSound(line: string, i: nat)
    requires MatchAt(line, i).Some?
    ensures OccursAt(line, i, "for <" + MatchAt(line, i).value + ">")
    ensures forall k :: 0 <= k < |MatchAt(line, i).value| ==> !IsLineTerminator(MatchAt(line, i).value[k])
  {
    var rest := line[i + 5..];
    var run := LineRun(rest);
    var n := LastIndexOf(run, '>');
    var c := run[..n];
    assert MatchAt(line, i).value == c;
    assert run[..n + 1] == c + [run[n]];
    assert rest[..n + 1] == run[..n + 1];
    assert line[i + 5..i + 6 + n] == rest[..n + 1];
    forall k | 0 <= k < |c|
      ensures !IsLineTerminator(c[k])
    {
      assert c[k] == run[k];
    }
    OccursConcat(line, i, "for <", c + ">");
    assert "for <" + (c + ">") == "for <" + c + ">";
  }

  lemma {:induction false} MatchFromSound(line: string, i: nat)
    requires MatchFrom(line, i).Some?
    ensures exists j: nat :: OccursAt(line, j, "for <" + MatchFrom(line, i).value + ">")
    ensures forall k :: 0 <= k < |MatchFrom(line, i).value| ==> !IsLineTerminator(MatchFrom(line, i).value[k])
    decreases |line| - i
  {
    if MatchAt(line, i).Some? {
      assert MatchFrom(line, i) == MatchAt(line, i);
      MatchAtSound(line, i);
    } else {
      assert MatchFrom(line, i) == MatchFrom(line, i + 1);
      MatchFromSound(line, i + 1);
    }
  }

  /** Where no earlier `for <` exists, a header holding `for <c>` followed by text with
      no `>` before the next line break yields exactly `c`. */
  lemma MatchForFinds(pre: string, c: string, post: string)
    requires forall i: nat :: i < |pre| ==> !OccursAt(pre + "for <" + c + ">" + post, i, "for <")
    requires forall k :: 0 <= k < |c| ==> !IsLineTerminator(c[k])
    requires '>' !in LineRun(post)
    ensures MatchFor(pre + "for <" + c + ">" + post) == Some(c)
  {
    var line := pre + "for <" + c + ">" + post;
    SkipToMatch(line, 0, |pre|);
    assert line[|pre|..|pre| + 5] == "for <";
    assert line[|pre| + 5..] == c + ">" + post;
    CaptureRun(c, post);
    assert MatchAt(line, |pre|) == Some(c);
  }

  /** The run after `for <` in `c>post` ends at the `>` after `c` when `c` has no line
      break and the rest of the line no `>`. */
  lemma CaptureRun(c: string, post: string)
    requires forall k :: 0 <= k < |c| ==> !IsLineTerminator(c[k])
    requires '>' !in LineRun(post)
    ensures var run := LineRun(c + ">" + post);
            '>' in run && run[..LastIndexOf(run, '>')] == c
  {
    LineRunAppend(c + ">", post);
    var run := LineRun(c + ">" + post);
    assert run == c + ">" + LineRun(post);
    assert run[|c|] == '>';
    var j := LastIndexOf(run, '>');
    assert run[..j] == c;
  }

  lemma {:induction false} SkipToMatch(line: string, i: nat, m: nat)
    requires i <= m && m + 5 <= |line|
    requires forall k: nat :: i <= k < m ==> !OccursAt(line, k, "for <")
    ensures MatchFrom(line, i) == MatchFrom(line, m)
    decreases m - i
  {
    if i < m {
      assert MatchAt(line, i).None?;
      SkipToMatch(line, i + 1, m);
    }
  }

  /** A prefix without line terminators is carried over into the run. */
  lemma {:induction false} LineRunAppend(x: string, y: string)
    requires forall k :: 0 <= k < |x| ==> !IsLineTerminator(x[k])
    ensures LineRun(x + y) == x + LineRun(y)
    decreases |x|
  {
    if |x| > 0 {
      assert (x + y)[0] == x[0];
      assert (x + y)[1..] == x[1..] + y;
      LineRunAppend(x[1..], y);
      assert x == [x[0]] + x[1..];
    } else {
      assert x + y == y;
    }
  }

  /** The targets found in one recipient list, in list order. */
  function ListTargets(list: seq<Address>, source: Source): (ts: seq<Target>)
    ensures |ts| == |list|
    ensures forall k :: 0 <= k < |list| ==>
              ts[k] == Target(list[k].address, list[k].name, source)
  {
    seq(|list|, k requires 0 <= k < |list| => Target(list[k].address, list[k].name, source))
  }

  /** A header names an envelope recipient: its key is `received` and its line
      matches `for <...>`. */
  predicate IsEnvelopeHeader(h: HeaderLine) {
    h.key == "received" && MatchFor(h.line).Some?
  }

  /** One `envelope` target with an empty name per envelope header, in header order. */
  function EnvelopeTargets(hs: seq<HeaderLine>): (ts: seq<Target>)
    ensures |ts| <= |hs|
    ensures forall t :: t in ts ==> t.source == Envelope && t.name == Some("")
  {
    if |hs| == 0 then []
    else if IsEnvelopeHeader(hs[0]) then
      [Target(MatchFor(hs[0].line).value, Some(""), Envelope)] + EnvelopeTargets(hs[1..])
    else EnvelopeTargets(hs[1..])
  }

  /** A single header yields one envelope target exactly when it is an envelope
      header. */
  lemma EnvelopeTargetsOne(h: HeaderLine)
    ensures EnvelopeTargets([h]) ==
              if IsEnvelopeHeader(h) then [Target(MatchFor(h.line).value, Some(""), Envelope)] else []
  {
    assert [h][1..] == [];
  }

  /** Envelope targets are found header by header: those of a concatenation are those
      of each part, in header order. */
  lemma {:induction false} EnvelopeTargetsAppend(xs: seq<HeaderLine>, ys: seq<HeaderLine>)
    ensures EnvelopeTargets(xs + ys) == EnvelopeTargets(xs) + EnvelopeTargets(ys)
    decreases |xs|
  {
    if |xs| > 0 {
      assert (xs + ys)[0] == xs[0];
      assert (xs + ys)[1..] == xs[1..] + ys;
      EnvelopeTargetsAppend(xs[1..], ys);
    } else {
      assert xs + ys == ys;
    }
  }

  /** An address is an envelope target exactly when some envelope header yields it. */
  lemma {:induction false} EnvelopeTargetsFromHeaders(hs: seq<HeaderLine>, a: string)
    ensures Target(a, Some(""), Envelope) in EnvelopeTargets(hs) <==>
            exists k :: 0 <= k < |hs| && IsEnvelopeHeader(hs[k]) && MatchFor(hs[k].line) == Some(a)
  {
    if |hs| > 0 {
      EnvelopeTargetsFromHeaders(hs[1..], a);
      if exists k :: 0 <= k < |hs| && IsEnvelopeHeader(hs[k]) && MatchFor(hs[k].line) == Some(a) {
        var k :| 0 <= k < |hs| && IsEnvelopeHeader(hs[k]) && MatchFor(hs[k].line) == Some(a);
        if k > 0 {
          assert hs[1..][k - 1] == hs[k];
        }
      }
      if exists k :: 0 <= k < |hs[1..]| && IsEnvelopeHeader(hs[1..][k]) && MatchFor(hs[1..][k].line) == Some(a) {
        var k :| 0 <= k < |hs[1..]| && IsEnvelopeHeader(hs[1..][k]) && MatchFor(hs[1..][k].line) == Some(a);
        assert hs[k + 1] == hs[1..][k];
      }
    }
  }

  /** The targets of an email: its `to`, then `cc`, then `bcc` recipients, then its
      envelope recipients. */
  function Targets(e: InboundEmail): (ts: seq<Target>)
    ensures |ts| == |e.to| + |e.cc| + |e.bcc| + |EnvelopeTargets(e.headerLines)|
    ensures forall k :: 0 <= k < |e.to| ==> ts[k] == Target(e.to[k].address, e.to[k].name, To)
    ensures forall k :: 0 <= k < |e.cc| ==>
              ts[|e.to| + k] == Target(e.cc[k].address, e.cc[k].name, Cc)
    ensures forall k :: 0 <= k < |e.bcc| ==>
              ts[|e.to| + |e.cc| + k] == Target(e.bcc[k].address, e.bcc[k].name, Bcc)
    ensures ts[|e.to| + |e.cc| + |e.bcc|..] == EnvelopeTargets(e.headerLines)
  {
    ListTargets(e.to, To) + ListTargets(e.cc, Cc) + ListTargets(e.bcc, Bcc)
    + EnvelopeTargets(e.headerLines)
  }
}
