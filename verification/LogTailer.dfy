/** The rTorrent log tailer (`sidecar/src/rtorrent_logs.rs`): a stored offset, a bounded read and a cut
    after the last complete line. A log line becomes an event through an arbitrary `clean` (decoding
    and trimming); a line that cleans to nothing is not recorded. */
module LogTailer {
  import opened Bytes
  import opened Collections

  const MAX_BYTES_PER_POLL: nat := 1024 * 1024
  const NEWLINE: uint8 := 10

  type Text = seq<uint8>

  // ----- lines -----

  function LineLength(text: Text): (n: nat)
    ensures n <= |text| && (n < |text| ==> text[n] == NEWLINE)
    ensures forall i :: 0 <= i < n ==> text[i] != NEWLINE
  {
    if text == [] || text[0] == NEWLINE then 0 else 1 + LineLength(text[1..])
  }

  function FirstLine(text: Text): Text {
    text[..LineLength(text)]
  }

  function AfterLine(text: Text): (rest: Text)
    ensures text != [] ==> |rest| < |text|
  {
    var n := LineLength(text);
    if n < |text| then text[n + 1..] else []
  }

  /** The event of one line, if it has one. */
  function Recorded(line: Text, clean: Text -> Text): seq<Text> {
    if clean(line) == [] then [] else [clean(line)]
  }

  /** The events of a text, line by line; a newline ends a line, and a last line need not have one. */
  function Events(text: Text, clean: Text -> Text): seq<Text>
    decreases |text|
  {
    if text == [] then [] else Recorded(FirstLine(text), clean) + Events(AfterLine(text), clean)
  }

  predicate WholeLines(text: Text) {
    text == [] || text[|text| - 1] == NEWLINE
  }

  /** Whole lines can be cut off without changing the events. */
  lemma {:induction false} EventsConcat(a: Text, b: Text, clean: Text -> Text)
    requires WholeLines(a)
    ensures Events(a + b, clean) == Events(a, clean) + Events(b, clean)
    decreases |a|
  {
    if a == [] {
      assert a + b == b;
    } else {
      SameLine(a, b);
      var first, rest := Recorded(FirstLine(a), clean), AfterLine(a);
      EventsConcat(rest, b, clean);
      EventsOfFirst(a, clean);
      EventsOfFirst(a + b, clean);
      FirstOfTwo(first, Events(rest, clean), Events(b, clean), Events(rest + b, clean));
    }
  }

  lemma FirstOfTwo(first: seq<Text>, a: seq<Text>, b: seq<Text>, both: seq<Text>)
    requires both == a + b
    ensures first + both == first + a + b
  {
  }

  lemma {:induction false} EventsOfFirst(text: Text, clean: Text -> Text)
    requires text != []
    ensures Events(text, clean) == Recorded(FirstLine(text), clean) + Events(AfterLine(text), clean)
  {
  }

  /** Whole lines keep their first line when more text follows. */
  lemma SameLine(a: Text, b: Text)
    requires a != [] && WholeLines(a)
    ensures FirstLine(a + b) == FirstLine(a) && AfterLine(a + b) == AfterLine(a) + b
    ensures WholeLines(AfterLine(a))
  {
    SameLength(a, b);
    var n := LineLength(a);
    assert (a + b)[..n] == a[..n];
    assert (a + b)[n + 1..] == a[n + 1..] + b;
  }

  lemma SameLength(a: Text, b: Text)
    requires a != [] && WholeLines(a)
    ensures LineLength(a) < |a| && LineLength(a + b) == LineLength(a)
  {
    var n, m := LineLength(a), LineLength(a + b);
    assert (a + b)[n] == a[n];
    assert m < |a| ==> (a + b)[m] == a[m];
  }

  lemma EventsStep(events: seq<Text>, text: Text, clean: Text -> Text)
    requires text != []
    ensures var line := clean(FirstLine(text));
            && (line == [] ==> events + Events(text, clean) == events + Events(AfterLine(text), clean))
            && (line != [] ==> events + Events(text, clean) == events + [line] + Events(AfterLine(text), clean))
  {
    var first, rest := Recorded(FirstLine(text), clean), Events(AfterLine(text), clean);
    assert Events(text, clean) == first + rest;
    if first == [] {
      assert first + rest == rest;
    } else {
      Regroup(events, first, rest);
    }
  }

  // ----- one poll -----

  /** Just after the last newline, or 0. */
  function LastLineEnd(buf: Text): (r: nat)
    ensures r <= |buf| && (r > 0 ==> buf[r - 1] == NEWLINE) && NEWLINE !in buf[r..]
  {
    if buf == [] then 0
    else if buf[|buf| - 1] == NEWLINE then |buf|
    else
      var r := LastLineEnd(buf[..|buf| - 1]);
      assert buf[r..] == buf[..|buf| - 1][r..] + [buf[|buf| - 1]];
      r
  }

  /** How much of a read is consumed: whole lines, or all of a full read without a newline. */
  function Cut(buf: Text): nat {
    var end := LastLineEnd(buf);
    if end > 0 then end else if |buf| == MAX_BYTES_PER_POLL then |buf| else 0
  }

  /** The log file, the stored offset and the events recorded so far. */
  datatype Tail = Tail(file: Text, offset: Option<nat>, events: seq<Text>)

  /** Where the next poll reads. */
  function Position(file: Text, offset: Option<nat>): (p: nat)
    ensures p <= |file|
  {
    if offset.Some? && offset.value <= |file| then offset.value else 0
  }

  function Window(file: Text, p: nat): Text
    requires p <= |file|
  {
    if |file| - p <= MAX_BYTES_PER_POLL then file[p..] else file[p..p + MAX_BYTES_PER_POLL]
  }

  /** The bytes a poll at p consumes. */
  function Chunk(file: Text, p: nat): Text
    requires p <= |file|
  {
    Window(file, p)[..Cut(Window(file, p))]
  }

  function Consumed(t: Tail, p: nat, c: Text, clean: Text -> Text): Tail {
    t.(offset := Some(p + |c|), events := t.events + Events(c, clean))
  }

  function Polled(t: Tail, fromStart: bool, clean: Text -> Text): Tail {
    if t.offset.None? && !fromStart then t.(offset := Some(|t.file|))
    else
      var p := Position(t.file, t.offset);
      if p == |t.file| then t else Consumed(t, p, Chunk(t.file, p), clean)
  }

  class LogIngest {
    const clean: Text -> Text
    var offset: Option<nat>
    var events: seq<Text>

    constructor (clean: Text -> Text)
      ensures this.clean == clean && offset == None && events == []
    {
      this.clean, offset, events := clean, None, [];
    }

    method AppendLines(text: Text)
      modifies `events
      ensures events == old(events) + Events(text, clean)
    {
      var rest := text;
      while rest != []
        invariant old(events) + Events(text, clean) == events + Events(rest, clean)
        decreases |rest|
      {
        EventsStep(events, rest, clean);
        var line := clean(FirstLine(rest));
        if line != [] {
          events := events + [line];
        }
        rest := AfterLine(rest);
      }
    }

    method Poll(file: Text, fromStart: bool)
      modifies this
      ensures Tail(file, offset, events) == Polled(Tail(file, old(offset), old(events)), fromStart, clean)
    {
      var position := 0;
      if offset.Some? {
        position := offset.value;
      } else if !fromStart {
        offset := Some(|file|);
        return;
      }
      if |file| < position {
        position := 0;
      }
      if |file| == position {
        return;
      }
      var chunk := ReadChunk(file, position);
      AppendLines(chunk);
      offset := Some(position + |chunk|);
    }
  }

  /** The bounded read and the cut after the last complete line. */
  method ReadChunk(file: Text, position: nat) returns (chunk: Text)
    requires position <= |file|
    ensures chunk == Chunk(file, position)
  {
    var buf := Window(file, position);
    var complete := LastLineEnd(buf);
    if complete == 0 && |buf| == MAX_BYTES_PER_POLL {
      complete := |buf|;
    }
    chunk := buf[..complete];
  }

  // ----- chunks -----

  /** A chunk is whole lines, or a full read without a newline. */
  predicate IsChunk(c: Text) {
    WholeLines(c) || (|c| == MAX_BYTES_PER_POLL && NEWLINE !in c)
  }

  lemma ChunkIsChunk(file: Text, p: nat)
    requires p <= |file|
    ensures var c := Chunk(file, p); IsChunk(c) && p + |c| <= |file| && c == file[p..p + |c|]
  {
    var buf := Window(file, p);
    var end := LastLineEnd(buf);
    assert end == 0 ==> buf[end..] == buf;
    assert buf[..Cut(buf)] == file[p..p + Cut(buf)];
  }

  /** A poll makes progress exactly when a complete line or a full read is there to be had. */
  lemma PollAdvances(file: Text, p: nat)
    requires p <= |file|
    ensures Chunk(file, p) == [] <==> NEWLINE !in file[p..] && |file| - p < MAX_BYTES_PER_POLL
  {
    var buf := Window(file, p);
    var end := LastLineEnd(buf);
    assert end > 0 ==> buf[end - 1] in buf;
    assert end == 0 ==> buf[end..] == buf;
    assert forall x :: x in buf ==> x in file[p..];
  }

  function Flatten(chunks: seq<Text>): Text {
    if chunks == [] then [] else Flatten(chunks[..|chunks| - 1]) + chunks[|chunks| - 1]
  }

  function AllEvents(chunks: seq<Text>, clean: Text -> Text): seq<Text> {
    if chunks == [] then [] else AllEvents(chunks[..|chunks| - 1], clean) + Events(chunks[|chunks| - 1], clean)
  }

  /** These chunks are the file from `base` to p, and the events are theirs. */
  ghost predicate TilesTo(file: Text, base: nat, p: nat, events: seq<Text>, chunks: seq<Text>, clean: Text -> Text) {
    && base <= p <= |file| && Flatten(chunks) == file[base..p] && events == AllEvents(chunks, clean)
    && forall c :: c in chunks ==> IsChunk(c)
  }

  ghost predicate Tiles(t: Tail, base: nat, chunks: seq<Text>, clean: Text -> Text) {
    && (t.offset.Some? ==> t.offset.value <= |t.file|)
    && TilesTo(t.file, base, Position(t.file, t.offset), t.events, chunks, clean)
  }

  // ----- runs -----

  /** Going from t to u appends to the file. */
  ghost predicate Appends(t: Tail, u: Tail) {
    t.file <= u.file && u == t.(file := u.file)
  }

  /** A schedule: each step appends to the file or polls it. */
  ghost predicate IsRun(run: seq<Tail>, fromStart: bool, clean: Text -> Text) {
    && run != []
    && forall i :: 0 < i < |run| ==> Appends(run[i - 1], run[i]) || run[i] == Polled(run[i - 1], fromStart, clean)
  }

  /** Going from t to u consumes the chunk c at the position of t. */
  ghost predicate Consumes(t: Tail, u: Tail, c: Text, clean: Text -> Text) {
    var p := Position(t.file, t.offset);
    && IsChunk(c) && p + |c| <= |t.file| && c == t.file[p..p + |c|]
    && u.file == t.file && u.events == t.events + Events(c, clean)
    && Position(u.file, u.offset) == p + |c| && (u.offset == t.offset || u.offset == Some(p + |c|))
  }

  lemma ConsumedConsumes(t: Tail, c: Text, clean: Text -> Text)
    requires var p := Position(t.file, t.offset); IsChunk(c) && p + |c| <= |t.file| && c == t.file[p..p + |c|]
    ensures Consumes(t, Consumed(t, Position(t.file, t.offset), c, clean), c, clean)
  {
  }

  lemma PollConsumes(t: Tail, fromStart: bool, clean: Text -> Text) returns (c: Text)
    requires t.offset.Some? || fromStart
    ensures c == Chunk(t.file, Position(t.file, t.offset)) && Consumes(t, Polled(t, fromStart, clean), c, clean)
  {
    var p := Position(t.file, t.offset);
    ChunkIsChunk(t.file, p);
    c := Chunk(t.file, p);
    ConsumedConsumes(t, c, clean);
    if p == |t.file| {
      assert c == [];
    }
  }

  /** What every step amounts to, all that the run lemma uses. */
  ghost predicate Grown(t: Tail, u: Tail, clean: Text -> Text) {
    Appends(t, u) || exists c :: Consumes(t, u, c, clean)
  }

  ghost predicate Grows(run: seq<Tail>, clean: Text -> Text) {
    forall i :: 0 < i < |run| ==> Grown(run[i - 1], run[i], clean)
  }

  lemma {:induction false} RunGrows(run: seq<Tail>, n: nat, fromStart: bool, clean: Text -> Text)
    requires IsRun(run, fromStart, clean) && n < |run| && (run[0].offset.Some? || fromStart)
    ensures (forall i :: 0 < i <= n ==> Grown(run[i - 1], run[i], clean)) && (run[n].offset.Some? || fromStart)
  {
    if n == 0 {
    } else {
      RunGrows(run, n - 1, fromStart, clean);
      if !Appends(run[n - 1], run[n]) {
        var c := PollConsumes(run[n - 1], fromStart, clean);
        assert Consumes(run[n - 1], run[n], c, clean);
      }
      assert Grown(run[n - 1], run[n], clean);
    }
  }

  lemma TileStep(chunks: seq<Text>, c: Text, clean: Text -> Text)
    ensures Flatten(chunks + [c]) == Flatten(chunks) + c
    ensures AllEvents(chunks + [c], clean) == AllEvents(chunks, clean) + Events(c, clean)
  {
    assert (chunks + [c])[..|chunks|] == chunks;
  }

  lemma ExtendTiles(file: Text, base: nat, p: nat, events: seq<Text>, chunks: seq<Text>, c: Text, clean: Text -> Text)
    requires TilesTo(file, base, p, events, chunks, clean)
    requires IsChunk(c) && p + |c| <= |file| && c == file[p..p + |c|]
    ensures TilesTo(file, base, p + |c|, events + Events(c, clean), chunks + [c], clean)
  {
    TileStep(chunks, c, clean);
    JoinSlice(file, base, p, c);
  }

  lemma JoinSlice(s: Text, i: nat, j: nat, c: Text)
    requires i <= j && j + |c| <= |s| && c == s[j..j + |c|]
    ensures s[i..j] + c == s[i..j + |c|]
  {
  }

  lemma AppendTiles(t: Tail, u: Tail, base: nat, chunks: seq<Text>, clean: Text -> Text)
    requires Tiles(t, base, chunks, clean) && Appends(t, u)
    ensures Tiles(u, base, chunks, clean)
  {
    var p := Position(t.file, t.offset);
    assert u.file[base..p] == t.file[base..p];
  }

  /** Where reading begins: at the stored offset, or at the start of the file. */
  ghost predicate StartsAt(t: Tail, base: nat, fromStart: bool) {
    t.events == [] && if t.offset.Some? then t.offset.value == base <= |t.file| else fromStart && base == 0
  }

  /** For every schedule the consumed part of the file is tiled by chunks that are whole lines or full
      reads without a newline, each recorded once and in order. */
  lemma ChunksTile(run: seq<Tail>, base: nat, fromStart: bool, clean: Text -> Text) returns (chunks: seq<Text>)
    requires IsRun(run, fromStart, clean) && StartsAt(run[0], base, fromStart)
    ensures Tiles(run[|run| - 1], base, chunks, clean)
  {
    RunGrows(run, |run| - 1, fromStart, clean);
    chunks := GrowthTiles(run, |run| - 1, base, clean);
  }

  lemma {:induction false} GrowthTiles(run: seq<Tail>, n: nat, base: nat, clean: Text -> Text)
      returns (chunks: seq<Text>)
    requires n < |run| && Grows(run, clean) && Tiles(run[0], base, [], clean)
    ensures Tiles(run[n], base, chunks, clean)
    decreases n
  {
    chunks := [];
    if n > 0 {
      chunks := GrowthTiles(run, n - 1, base, clean);
      assert Grown(run[n - 1], run[n], clean);
      chunks := StepTiles(run[n - 1], run[n], base, chunks, clean);
    }
  }

  lemma StepTiles(t: Tail, u: Tail, base: nat, chunks: seq<Text>, clean: Text -> Text) returns (more: seq<Text>)
    requires Tiles(t, base, chunks, clean) && Grown(t, u, clean)
    ensures Tiles(u, base, more, clean)
  {
    if Appends(t, u) {
      AppendTiles(t, u, base, chunks, clean);
      more := chunks;
    } else {
      var c :| Consumes(t, u, c, clean);
      ExtendTiles(t.file, base, Position(t.file, t.offset), t.events, chunks, c, clean);
      more := chunks + [c];
    }
  }

  /** Every 1 MiB of the file has a newline in it. */
  ghost predicate NoLongLine(file: Text) {
    forall i, j :: 0 <= i <= j <= |file| && j - i == MAX_BYTES_PER_POLL ==> NEWLINE in file[i..j]
  }

  lemma SplitSlice(s: Text, i: nat, j: nat, a: Text, b: Text)
    requires i <= j <= |s| && s[i..j] == a + b
    ensures i + |a| == j - |b| && a == s[i..i + |a|] && b == s[i + |a|..j]
  {
    assert |a| + |b| == j - i;
    assert a == (a + b)[..|a|] && b == (a + b)[|a|..];
  }

  /** Tiling a text that has no long line, the chunks are whole lines, so cutting it up changes nothing. */
  lemma {:induction false} WholeChunks(file: Text, base: nat, end: nat, chunks: seq<Text>, clean: Text -> Text)
    requires base <= end <= |file| && NoLongLine(file)
    requires (forall c :: c in chunks ==> IsChunk(c)) && Flatten(chunks) == file[base..end]
    ensures WholeLines(Flatten(chunks)) && AllEvents(chunks, clean) == Events(Flatten(chunks), clean)
    decreases chunks
  {
    if chunks == [] {
    } else {
      var c, before := chunks[|chunks| - 1], chunks[..|chunks| - 1];
      assert c in chunks;
      var mid := end - |c|;
      SplitSlice(file, base, end, Flatten(before), c);
      WholeChunks(file, base, mid, before, clean);
      assert WholeLines(c) by {
        if |c| == MAX_BYTES_PER_POLL {
          assert NEWLINE in file[mid..end];
        }
      }
      EventsConcat(Flatten(before), c, clean);
    }
  }

  /** Exactly-once delivery, whatever the schedule: the events are those of the consumed part of the
      file, which ends at a line end. */
  lemma ScheduleIndependent(run: seq<Tail>, base: nat, fromStart: bool, clean: Text -> Text)
    requires IsRun(run, fromStart, clean) && StartsAt(run[0], base, fromStart)
    requires NoLongLine(run[|run| - 1].file)
    ensures var u := run[|run| - 1];
            var p := Position(u.file, u.offset);
            base <= p && WholeLines(u.file[base..p]) && u.events == Events(u.file[base..p], clean)
  {
    var u := run[|run| - 1];
    var chunks := ChunksTile(run, base, fromStart, clean);
    WholeChunks(u.file, base, Position(u.file, u.offset), chunks, clean);
  }

  // ----- progress -----

  function Unread(t: Tail): nat {
    |t.file| - Position(t.file, t.offset)
  }

  /** Nothing to be had: what is unread has no newline and does not fill a read. */
  ghost predicate Stuck(t: Tail) {
    NEWLINE !in t.file[Position(t.file, t.offset)..] && Unread(t) < MAX_BYTES_PER_POLL
  }

  /** A poll that can consume something does. */
  ghost predicate Progressed(t: Tail, u: Tail) {
    u.file == t.file && if Stuck(t) then Stuck(u) else Unread(u) < Unread(t)
  }

  lemma PollProgress(t: Tail, clean: Text -> Text)
    ensures Progressed(t, Polled(t, true, clean))
  {
    PollAdvances(t.file, Position(t.file, t.offset));
    var c := PollConsumes(t, true, clean);
    ConsumeProgress(t, Polled(t, true, clean), c, clean);
  }

  lemma ConsumeProgress(t: Tail, u: Tail, c: Text, clean: Text -> Text)
    requires Consumes(t, u, c, clean)
    ensures u.file == t.file && Unread(u) == Unread(t) - |c| && (c == [] && Stuck(t) ==> Stuck(u))
  {
  }

  /** Polls only. */
  ghost predicate OnlyPolls(run: seq<Tail>, clean: Text -> Text) {
    run != [] && forall i :: 0 < i < |run| ==> run[i] == Polled(run[i - 1], true, clean)
  }

  /** A file that no longer grows is read to its last line end: after as many polls as there are bytes
      left, what is unread has no newline and does not fill a read. */
  lemma Drains(run: seq<Tail>, clean: Text -> Text)
    requires OnlyPolls(run, clean) && |run| - 1 >= Unread(run[0])
    ensures run[|run| - 1].file == run[0].file && Stuck(run[|run| - 1])
  {
    forall i | 0 < i < |run|
      ensures Progressed(run[i - 1], run[i])
    {
      PollProgress(run[i - 1], clean);
    }
    ProgressOrStops(run, |run| - 1);
  }

  /** Each poll consumes at least a byte until none does. */
  lemma {:induction false} ProgressOrStops(run: seq<Tail>, n: nat)
    requires n < |run| && forall i :: 0 < i < |run| ==> Progressed(run[i - 1], run[i])
    ensures run[n].file == run[0].file && (Stuck(run[n]) || Unread(run[n]) + n <= Unread(run[0]))
  {
    if n == 0 {
    } else {
      ProgressOrStops(run, n - 1);
      assert Progressed(run[n - 1], run[n]);
    }
  }
}
