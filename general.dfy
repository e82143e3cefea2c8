/** The message budgeting of the Discord cog: the `/lore` command takes its
    question from the message text and cuts an over-long answer at a full
    stop, and `chunk_message_content` packs a long story line by line into
    messages wrapped in triple backticks. Discord allows 2000 characters
    per message. */
module General {
  import opened Wrappers
  import opened PyStr

  /** Discord's limit on the length of one message. */
  const MaxLength: nat := 2000

  /** The room left for a body once the six backticks are added. */
  const ChunkSize: nat := MaxLength - 6

  /** The length each line already packed adds to the flush test. */
  const LineBreaksPerChunk: nat := 20

  /** `f"```{s}```"`: a quote block. */
  function Quote(s: string): (m: string)
    ensures |m| == |s| + 6
    ensures m[..3] == "```" && m[3..|m| - 3] == s && m[|m| - 3..] == "```"
  {
    "```" + s + "```"
  }

  // ---------------------------------------------------------------------------
  // /lore (lines 118-126)
  // ---------------------------------------------------------------------------

  /** `content.split("lore", 1)[1]`: the text after the first "lore"; `None`
      stands for the `IndexError` raised when there is no "lore". */
  function ExtractQuestion(content: string): (q: Option<string>)
    ensures q.Some? <==> Contains(content, "lore")
    ensures q.Some? ==>
              exists k :: && SubstringAt(content, "lore", k)
                          && (forall j :: j < k ==> !SubstringAt(content, "lore", j))
                          && content == content[..k] + "lore" + q.value
  {
    var k := Find(content, "lore");
    if k == -1 then None
    else
      assert content == content[..k] + content[k..k + 4] + content[k + 4..];
      Some(content[k + 4..])
  }

  /** The body of the `/lore` reply: the whole response when it fits,
      otherwise its first `ChunkSize` characters cut just after the last
      "." among them (nothing when there is none). */
  function LoreBody(response: string): (body: string)
    ensures |response| <= ChunkSize ==> body == response
    ensures |response| > ChunkSize ==>
              && |body| <= ChunkSize
              && body == response[..|body|]
              && (body == [] || body[|body| - 1] == '.')
              && '.' !in response[|body|..ChunkSize]
  {
    if |response| > ChunkSize then
      var trimmed := response[..ChunkSize];
      var lastFullStop := RFind(trimmed, '.');
      assert trimmed[lastFullStop + 1..] == response[lastFullStop + 1..ChunkSize];
      trimmed[..lastFullStop + 1]
    else
      response
  }

  /** The `/lore` reply: never longer than a Discord message, and the
      response itself when it fits. */
  function LoreReply(response: string): (m: string)
    ensures |m| <= MaxLength
    ensures |response| <= ChunkSize ==> m == Quote(response)
    ensures |m| >= 6 && m[..3] == "```" && m[|m| - 3..] == "```"
    ensures m[3..|m| - 3] == LoreBody(response)
  {
    Quote(LoreBody(response))
  }

  /** A long answer keeps as much of its opening as possible: the body is
      the longest prefix of the first `ChunkSize` characters that ends in a
      full stop, so any longer prefix that fits ends elsewhere. */
  lemma {:induction false} LoreBodyLongest(response: string, p: nat)
    requires |response| > ChunkSize
    requires |LoreBody(response)| < p <= ChunkSize
    ensures response[p - 1] != '.'
  {
    var body := LoreBody(response);
    assert response[p - 1] == response[|body|..ChunkSize][p - 1 - |body|];
  }

  // ---------------------------------------------------------------------------
  // chunk_message_content (lines 143-181)
  // ---------------------------------------------------------------------------

  /** The loop state: the bodies already flushed, the chunk being filled and
      the number of lines seen. */
  datatype PackState = PackState(bodies: seq<string>, current: string, lineCount: nat)

  /** One iteration: flush the current chunk when the line would overrun the
      budget (which counts `LineBreaksPerChunk` per line seen so far), then
      append the line and its newline. */
  function Step(st: PackState, line: string): (st': PackState)
    ensures st'.lineCount == st.lineCount + 1
  {
    if |st.current| + |line| + st.lineCount * LineBreaksPerChunk > ChunkSize then
      PackState(st.bodies + [st.current], line + "\n", st.lineCount + 1)
    else
      PackState(st.bodies, st.current + line + "\n", st.lineCount + 1)
  }

  /** The loop state after the given lines. */
  function Pack(lines: seq<string>): (st: PackState)
  {
    if lines == [] then PackState([], "", 0)
    else Step(Pack(lines[..|lines| - 1]), lines[|lines| - 1])
  }

  lemma PackStep(lines: seq<string>, i: nat)
    requires i < |lines|
    ensures Pack(lines[..i + 1]) == Step(Pack(lines[..i]), lines[i])
  {
    assert lines[..i + 1][..i] == lines[..i];
  }

  /** The un-stripped bodies of the messages, in order: the flushed ones and
      the last chunk when it is not empty. */
  function ChunkBodies(text: string): seq<string>
  {
    var st := Pack(Split(text, '\n'));
    if st.current != "" then st.bodies + [st.current] else st.bodies
  }

  /** Each body stripped and quoted. */
  function Messages(bodies: seq<string>): (ms: seq<string>)
    ensures |ms| == |bodies|
    ensures forall k :: 0 <= k < |bodies| ==> ms[k] == Quote(Strip(bodies[k]))
  {
    seq(|bodies|, k requires 0 <= k < |bodies| => Quote(Strip(bodies[k])))
  }

  lemma MessagesAppend(bodies: seq<string>, b: string)
    ensures Messages(bodies + [b]) == Messages(bodies) + [Quote(Strip(b))]
  {
  }

  /** The messages `chunk_message_content(text)` returns. */
  function ChunkMessages(text: string): seq<string>
  {
    Messages(ChunkBodies(text))
  }

  /** Lines 143-181, step by step. */
  method ChunkMessageContent(text: string) returns (chunks: seq<string>)
    ensures chunks == ChunkMessages(text)
  {
    var lines := Split(text, '\n');
    var current;
    ghost var bodies;
    chunks, bodies, current := PackLines(lines);
    if current != "" {
      chunks := Flush(chunks, bodies, current);
    }
  }

  /** Lines 164-176, the loop over the lines: the messages flushed so far
      and the chunk still being filled are those of `Pack(lines)`. */
  method PackLines(lines: seq<string>) returns (chunks: seq<string>, ghost bodies: seq<string>, current: string)
    ensures Pack(lines).bodies == bodies && Pack(lines).current == current
    ensures chunks == Messages(bodies)
  {
    chunks := [];
    current := "";
    var currentLength := 0;
    var currentLineCount := 0;
    bodies := [];
    for i := 0 to |lines|
      invariant Pack(lines[..i]) == PackState(bodies, current, currentLineCount)
      invariant currentLength == |current|
      invariant chunks == Messages(bodies)
    {
      var line := lines[i];
      PackStep(lines, i);
      if currentLength + |line| + currentLineCount * LineBreaksPerChunk > ChunkSize {
        chunks := Flush(chunks, bodies, current);
        bodies := bodies + [current];
        current := "";
        currentLength := 0;
      }
      current := current + line + "\n";
      currentLength := currentLength + |line| + 1;
      currentLineCount := currentLineCount + 1;
    }
    assert lines[..|lines|] == lines;
  }

  /** `chunks.append(f"```{current_chunk.strip()}```")`: the messages of the
      flushed bodies gain the message of `current`. */
  method Flush(chunks: seq<string>, ghost bodies: seq<string>, current: string) returns (chunks': seq<string>)
    requires chunks == Messages(bodies)
    ensures chunks' == Messages(bodies + [current])
  {
    MessagesAppend(bodies, current);
    chunks' := chunks + [Quote(Strip(current))];
  }

  // ---------------------------------------------------------------------------
  // What the packing guarantees
  // ---------------------------------------------------------------------------

  /** Every line adds to the count and nothing resets it. */
  lemma {:induction false} LineCountNeverReset(lines: seq<string>)
    ensures Pack(lines).lineCount == |lines|
  {
    if lines != [] {
      LineCountNeverReset(lines[..|lines| - 1]);
    }
  }

  /** After at least one line the current chunk is never empty. */
  lemma CurrentNotEmpty(lines: seq<string>)
    requires lines != []
    ensures Pack(lines).current != ""
  {
  }

  /** There is always at least one message, and each is a quote block. */
  lemma AtLeastOneMessage(text: string)
    ensures |ChunkMessages(text)| >= 1
    ensures forall k :: 0 <= k < |ChunkMessages(text)| ==>
              var m := ChunkMessages(text)[k];
              |m| >= 6 && m[..3] == "```" && m[|m| - 3..] == "```"
  {
    CurrentNotEmpty(Split(text, '\n'));
    var ms := ChunkMessages(text);
    assert |ms| == |ChunkBodies(text)|;
  }

  /** The text of a list of strings run together. */
  function Concat(ss: seq<string>): string
  {
    if ss == [] then "" else Concat(ss[..|ss| - 1]) + ss[|ss| - 1]
  }

  /** Every line followed by a newline, run together. */
  function Lines(lines: seq<string>): string
  {
    if lines == [] then "" else Lines(lines[..|lines| - 1]) + lines[|lines| - 1] + "\n"
  }

  /** Flushed bodies and the current chunk together hold every line seen,
      in order, each with its newline. */
  lemma {:induction false} PackKeepsLines(lines: seq<string>)
    ensures Concat(Pack(lines).bodies) + Pack(lines).current == Lines(lines)
  {
    if lines != [] {
      var n := |lines| - 1;
      var st := Pack(lines[..n]);
      PackKeepsLines(lines[..n]);
      if |st.current| + |lines[n]| + st.lineCount * LineBreaksPerChunk > ChunkSize {
        assert (st.bodies + [st.current])[..|st.bodies|] == st.bodies;
      }
    }
  }

  /** `"\n".join(parts)` with a final newline is every part followed by a
      newline. */
  lemma {:induction false} LinesIsJoin(parts: seq<string>)
    requires parts != []
    ensures Lines(parts) == Join(parts, "\n") + "\n"
  {
    var n := |parts| - 1;
    if n > 0 {
      LinesIsJoin(parts[..n]);
      JoinAppend(parts[..n], [parts[n]], "\n");
      assert parts[..n] + [parts[n]] == parts;
    }
  }

  /** The un-stripped bodies, in order, are exactly the text with a newline
      added: no line is lost, reordered or split. */
  lemma BodiesRebuildText(text: string)
    ensures Concat(ChunkBodies(text)) == text + "\n"
  {
    var lines := Split(text, '\n');
    var st := Pack(lines);
    PackKeepsLines(lines);
    LinesIsJoin(lines);
    if st.current != "" {
      assert (st.bodies + [st.current])[..|st.bodies|] == st.bodies;
    }
  }

  /** The body is one line and its newline. */
  predicate SingleLine(b: string) {
    |b| > 0 && b[|b| - 1] == '\n' && '\n' !in b[..|b| - 1]
  }

  /** What every body satisfies: empty, or ending in a newline and either
      within the budget (with its newline) or a single line. */
  predicate Bounded(b: string) {
    b == "" || (b[|b| - 1] == '\n' && (|b| <= ChunkSize + 1 || SingleLine(b)))
  }

  lemma {:induction false} PackBounded(lines: seq<string>)
    requires forall j :: 0 <= j < |lines| ==> '\n' !in lines[j]
    ensures forall k :: 0 <= k < |Pack(lines).bodies| ==> Bounded(Pack(lines).bodies[k])
    ensures Bounded(Pack(lines).current)
  {
    if lines != [] {
      var n := |lines| - 1;
      PackBounded(lines[..n]);
      var line := lines[n];
      assert (line + "\n")[..|line|] == line;
    }
  }

  /** A message longer than Discord allows comes only from a body that is a
      single line of more than `ChunkSize` characters. */
  lemma LongMessageIsOneLine(text: string, k: nat)
    requires k < |ChunkMessages(text)| && |ChunkMessages(text)[k]| > MaxLength
    ensures SingleLine(ChunkBodies(text)[k]) && |ChunkBodies(text)[k]| > ChunkSize + 1
  {
    PackBounded(Split(text, '\n'));
    var b := ChunkBodies(text)[k];
    assert Bounded(b);
  }

  /** The first body is empty exactly when the first line alone overruns the
      budget; the first message is then the empty quote block. */
  lemma {:induction false} LongFirstLine(text: string)
    requires |Split(text, '\n')[0]| > ChunkSize
    ensures ChunkMessages(text)[0] == "``````"
  {
    var lines := Split(text, '\n');
    FirstBodyEmpty(lines);
    var bodies := ChunkBodies(text);
    assert bodies[0] == Pack(lines).bodies[0];
    assert Quote(Strip("")) == "``````";
  }

  lemma FirstBodyEmpty(lines: seq<string>)
    requires |lines| > 0 && |lines[0]| > ChunkSize
    ensures |Pack(lines).bodies| > 0 && Pack(lines).bodies[0] == ""
  {
    PackStep(lines, 0);
    assert lines[..0] == [];
    assert Pack(lines[..1]).bodies == [""];
    BodiesGrow(lines, 1);
  }

  /** Later lines only add bodies: the bodies after the first `i` lines
      begin those after all of them. */
  lemma {:induction false} BodiesGrow(lines: seq<string>, i: nat)
    requires i <= |lines|
    ensures Pack(lines[..i]).bodies <= Pack(lines).bodies
    decreases |lines| - i
  {
    if i < |lines| {
      BodiesGrow(lines, i + 1);
      assert lines[..i + 1][..i] == lines[..i];
    } else {
      assert lines[..i] == lines;
    }
  }

  /** Once 100 lines have been read (from the 101st line on) the budget test
      always fails (the count is never reset), so each such line flushes what
      came before and starts a chunk of its own. */
  lemma LateLineAlone(lines: seq<string>, i: nat)
    requires 100 <= i < |lines|
    ensures Pack(lines[..i + 1]) ==
              var st := Pack(lines[..i]);
              PackState(st.bodies + [st.current], lines[i] + "\n", i + 1)
  {
    LineCountNeverReset(lines[..i]);
    assert lines[..i + 1][..i] == lines[..i];
  }
}
