/** The byte-at-a-time TCP reassembler, refined against a parser that sees the whole stream. */
module TcpReassembly {
  import opened Bytes

  const START0: byte := 0xAB
  const START1: byte := 0xCD

  // ---- the reference: a parser over the whole stream ------------------------------------

  /** A start marker at position i. */
  predicate MarkerAt(s: seq<byte>, i: nat) {
    i + 1 < |s| && s[i] == START0 && s[i + 1] == START1
  }

  /** The first marker at or after i, or |s| if there is none. */
  function FirstMarker(s: seq<byte>, i: nat): (m: nat)
    requires i <= |s|
    ensures i <= m <= |s|
    ensures m < |s| ==> MarkerAt(s, m)
    ensures forall j :: i <= j < m ==> !MarkerAt(s, j)
    decreases |s| - i
  {
    if i == |s| || MarkerAt(s, i) then i else FirstMarker(s, i + 1)
  }

  function BigEndian(b0: byte, b1: byte, b2: byte, b3: byte): u32 {
    ((b0 * 0x100 + b1) * 0x100 + b2) * 0x100 + b3
  }

  function LengthAt(s: seq<byte>, i: nat): u32
    requires i + 4 <= |s|
  {
    BigEndian(s[i], s[i + 1], s[i + 2], s[i + 3])
  }

  /** False starts in s[from..end): a first start byte followed by something that is neither start byte. */
  function FalseStarts(s: seq<byte>, from: nat, end: nat): nat
    requires from <= end < |s|
    decreases end
  {
    if from == end then 0
    else FalseStarts(s, from, end - 1) + if s[end - 1] == START0 && s[end] != START0 && s[end] != START1 then 1 else 0
  }

  datatype Body = Cut | Impossible(end: nat) | Whole(payload: seq<byte>, end: nat)

  /** What follows a marker: a length field and that many bytes, unless the length is impossible or the stream ends. */
  function BodyAt(s: seq<byte>, i: nat, maxPayload: u32): (b: Body)
    requires i <= |s|
    ensures !b.Cut? ==> i < b.end <= |s|
  {
    if i + 4 > |s| then Cut
    else if LengthAt(s, i) > maxPayload then Impossible(i + 4)
    else
      var end := i + 4 + LengthAt(s, i);
      if end > |s| then Cut else Whole(s[i + 4..end], end)
  }

  datatype Parsed = Parsed(payloads: seq<seq<byte>>, resyncs: nat)

  function Skipped(n: nat, p: Parsed): Parsed { Parsed(p.payloads, n + p.resyncs) }

  /**
   * The framing grammar from position i on: skip to the first marker, read the length, drop an impossible one, else
   * take that many bytes as a payload. An incomplete frame at the end yields nothing.
   */
  function Parse(s: seq<byte>, i: nat, maxPayload: u32): Parsed
    requires i <= |s|
    decreases |s| - i, 0
  {
    var m := FirstMarker(s, i);
    if m == |s| then
      Parsed([], if i < |s| then FalseStarts(s, i, |s| - 1) else 0)
    else
      Skipped(FalseStarts(s, i, m), ParseBody(s, m + 2, maxPayload))
  }

  function ParseBody(s: seq<byte>, i: nat, maxPayload: u32): Parsed
    requires i <= |s|
    decreases |s| - i, 1
  {
    match BodyAt(s, i, maxPayload)
    case Cut => Parsed([], 0)
    case Impossible(end) => Skipped(1, Parse(s, end, maxPayload))
    case Whole(payload, end) =>
      var rest := Parse(s, end, maxPayload);
      Parsed([payload] + rest.payloads, rest.resyncs)
  }

  // ---- the automaton ----------------------------------------------------------------------

  /** The machine between bytes. The length bytes and the payload are those received so far. */
  datatype Machine =
    | Idle
    | GotStart
    | InLength(length: seq<byte>)
    | InPayload(size: u32, payload: seq<byte>)

  datatype Run = Run(machine: Machine, payloads: seq<seq<byte>>, resyncs: nat)

  function Step(r: Run, b: byte, maxPayload: u32): Run {
    match r.machine
    case Idle => if b == START0 then r.(machine := GotStart) else r
    case GotStart =>
      if b == START1 then r.(machine := InLength([]))
      else if b == START0 then r
      else r.(machine := Idle, resyncs := r.resyncs + 1)
    case InLength(l) =>
      if |l| < 3 then r.(machine := InLength(l + [b]))
      else
        var n := BigEndian(l[0], l[1], l[2], b);
        if n > maxPayload then r.(machine := Idle, resyncs := r.resyncs + 1)
        else if n == 0 then r.(machine := Idle, payloads := r.payloads + [[]])
        else r.(machine := InPayload(n, []))
    case InPayload(n, p) =>
      if |p| + 1 == n then r.(machine := Idle, payloads := r.payloads + [p + [b]])
      else r.(machine := InPayload(n, p + [b]))
  }

  /**
   * The transitions, byte by byte: 0xAB and 0xCD announce a frame, a repeated 0xAB may still be the start of one and
   * anything else behind it is a resync; then four length bytes, the highest first, of which a length above the limit
   * is a resync and zero an empty payload; then that many bytes.
   */
  lemma StepExactly(r: Run, b: byte, maxPayload: u32)
    ensures var t, m := Step(r, b, maxPayload), r.machine;
            && (m.Idle? ==> t == if b == 0xAB then Run(GotStart, r.payloads, r.resyncs) else r)
            && (m.GotStart? && b == 0xCD ==> t == Run(InLength([]), r.payloads, r.resyncs))
            && (m.GotStart? && b == 0xAB ==> t == r)
            && (m.GotStart? && b != 0xCD && b != 0xAB ==> t == Run(Idle, r.payloads, r.resyncs + 1))
            && (m.InLength? && |m.length| < 3 ==> t == Run(InLength(m.length + [b]), r.payloads, r.resyncs))
            && (m.InLength? && |m.length| >= 3 ==>
                  var n := 0x100_0000 * m.length[0] + 0x1_0000 * m.length[1] + 0x100 * m.length[2] + b;
                  && (n > maxPayload ==> t == Run(Idle, r.payloads, r.resyncs + 1))
                  && (n <= maxPayload && n == 0 ==> t == Run(Idle, r.payloads + [[]], r.resyncs))
                  && (n <= maxPayload && n > 0 ==> t == Run(InPayload(n, []), r.payloads, r.resyncs)))
            && (m.InPayload? && |m.payload| + 1 == m.size ==>
                  t == Run(Idle, r.payloads + [m.payload + [b]], r.resyncs))
            && (m.InPayload? && |m.payload| + 1 != m.size ==>
                  t == Run(InPayload(m.size, m.payload + [b]), r.payloads, r.resyncs))
  {
  }

  function Feed(r: Run, data: seq<byte>, maxPayload: u32): Run
    decreases |data|
  {
    if data == [] then r else Feed(Step(r, data[0], maxPayload), data[1..], maxPayload)
  }

  const FRESH := Run(Idle, [], 0)

  lemma {:induction false} FeedAppend(r: Run, a: seq<byte>, b: seq<byte>, maxPayload: u32)
    ensures Feed(r, a + b, maxPayload) == Feed(Feed(r, a, maxPayload), b, maxPayload)
    decreases |a|
  {
    if a == [] {
      assert a + b == b;
    } else {
      assert (a + b)[1..] == a[1..] + b;
      FeedAppend(Step(r, a[0], maxPayload), a[1..], b, maxPayload);
    }
  }

  function Concat(chunks: seq<seq<byte>>): seq<byte> {
    if chunks == [] then [] else chunks[0] + Concat(chunks[1..])
  }

  function FeedChunks(r: Run, chunks: seq<seq<byte>>, maxPayload: u32): Run
    decreases |chunks|
  {
    if chunks == [] then r else FeedChunks(Feed(r, chunks[0], maxPayload), chunks[1..], maxPayload)
  }

  /** How the stream is cut into chunks makes no difference. */
  lemma {:induction false} ChunkingIrrelevant(r: Run, chunks: seq<seq<byte>>, maxPayload: u32)
    ensures FeedChunks(r, chunks, maxPayload) == Feed(r, Concat(chunks), maxPayload)
    decreases |chunks|
  {
    if chunks != [] {
      ChunkingIrrelevant(Feed(r, chunks[0], maxPayload), chunks[1..], maxPayload);
      FeedAppend(r, chunks[0], Concat(chunks[1..]), maxPayload);
    }
  }

  // ---- refinement ----------------------------------------------------------------------------

  /** Bytes fed one after another from position i to j. */
  function FeedFrom(r: Run, s: seq<byte>, i: nat, j: nat, maxPayload: u32): Run
    requires i <= j <= |s|
    decreases j
  {
    if i == j then r else Step(FeedFrom(r, s, i, j - 1, maxPayload), s[j - 1], maxPayload)
  }

  lemma {:induction false} FeedFromSplit(r: Run, s: seq<byte>, i: nat, k: nat, j: nat, maxPayload: u32)
    requires i <= k <= j <= |s|
    ensures FeedFrom(r, s, i, j, maxPayload) == FeedFrom(FeedFrom(r, s, i, k, maxPayload), s, k, j, maxPayload)
    decreases j
  {
    if k < j { FeedFromSplit(r, s, i, k, j - 1, maxPayload); }
  }

  lemma {:induction false} FeedIsFeedFrom(r: Run, s: seq<byte>, j: nat, maxPayload: u32)
    requires j <= |s|
    ensures Feed(r, s[..j], maxPayload) == FeedFrom(r, s, 0, j, maxPayload)
  {
    if j > 0 {
      FeedIsFeedFrom(r, s, j - 1, maxPayload);
      assert s[..j] == s[..j - 1] + [s[j - 1]];
      FeedAppend(r, s[..j - 1], [s[j - 1]], maxPayload);
      var q := Feed(r, s[..j - 1], maxPayload);
      assert Feed(q, [s[j - 1]], maxPayload) == Feed(Step(q, s[j - 1], maxPayload), [], maxPayload);
    }
  }

  /** While no marker completes, an idle machine only remembers whether the last byte was a first start byte. */
  lemma {:induction false} FeedGarbage(r: Run, s: seq<byte>, i: nat, k: nat, maxPayload: u32)
    requires r.machine == Idle && i < k <= |s|
    requires forall j :: i <= j < k - 1 ==> !MarkerAt(s, j)
    ensures FeedFrom(r, s, i, k, maxPayload)
            == Run(if s[k - 1] == START0 then GotStart else Idle, r.payloads, r.resyncs + FalseStarts(s, i, k - 1))
    decreases k
  {
    if k == i + 1 {
      assert FeedFrom(r, s, i, i, maxPayload) == r;
    } else {
      FeedGarbage(r, s, i, k - 1, maxPayload);
      assert !MarkerAt(s, k - 2);
    }
  }

  lemma FeedHeader(r: Run, s: seq<byte>, i: nat, m: nat, maxPayload: u32)
    requires r.machine == Idle && i <= m && MarkerAt(s, m) && (forall j :: i <= j < m ==> !MarkerAt(s, j))
    ensures FeedFrom(r, s, i, m + 2, maxPayload) == Run(InLength([]), r.payloads, r.resyncs + FalseStarts(s, i, m))
  {
    FeedGarbage(r, s, i, m + 1, maxPayload);
  }

  lemma FeedLength(r: Run, s: seq<byte>, i: nat, k: nat, maxPayload: u32)
    requires r.machine == InLength([]) && k <= 3 && i + k <= |s|
    ensures FeedFrom(r, s, i, i + k, maxPayload) == r.(machine := InLength(s[i..i + k]))
  {
    if k > 0 {
      FeedLength(r, s, i, k - 1, maxPayload);
      assert s[i..i + k] == s[i..i + k - 1] + [s[i + k - 1]];
    }
  }

  lemma {:induction false} FeedPayload(r: Run, s: seq<byte>, i: nat, k: nat, n: u32, maxPayload: u32)
    requires r.machine == InPayload(n, []) && k < n && i + k <= |s|
    ensures FeedFrom(r, s, i, i + k, maxPayload) == r.(machine := InPayload(n, s[i..i + k]))
    decreases k
  {
    if k > 0 {
      FeedPayload(r, s, i, k - 1, n, maxPayload);
      assert s[i..i + k] == s[i..i + k - 1] + [s[i + k - 1]];
    }
  }

  /** The machine after a length field that announces n bytes. */
  function Announced(r: Run, n: u32, maxPayload: u32): Run {
    if n > maxPayload then Run(Idle, r.payloads, r.resyncs + 1)
    else if n == 0 then Run(Idle, r.payloads + [[]], r.resyncs)
    else Run(InPayload(n, []), r.payloads, r.resyncs)
  }

  lemma FeedWholeLength(r: Run, s: seq<byte>, i: nat, maxPayload: u32)
    requires r.machine == InLength([]) && i + 4 <= |s|
    ensures FeedFrom(r, s, i, i + 4, maxPayload) == Announced(r, LengthAt(s, i), maxPayload)
  {
    FeedLength(r, s, i, 3, maxPayload);
  }

  lemma FeedWholePayload(r: Run, s: seq<byte>, i: nat, n: u32, maxPayload: u32)
    requires r.machine == InPayload(n, []) && 0 < n && i + n <= |s|
    ensures FeedFrom(r, s, i, i + n, maxPayload) == Run(Idle, r.payloads + [s[i..i + n]], r.resyncs)
  {
    FeedPayload(r, s, i, n - 1, n, maxPayload);
    assert s[i..i + n] == s[i..i + n - 1] + [s[i + n - 1]];
  }

  /** A whole frame body that starts at i, length field first. */
  lemma FeedFrame(r: Run, s: seq<byte>, i: nat, maxPayload: u32)
    requires r.machine == InLength([]) && i + 4 <= |s| && LengthAt(s, i) <= maxPayload && i + 4 + LengthAt(s, i) <= |s|
    ensures var end := i + 4 + LengthAt(s, i);
            FeedFrom(r, s, i, end, maxPayload) == Run(Idle, r.payloads + [s[i + 4..end]], r.resyncs)
  {
    var n := LengthAt(s, i);
    FeedWholeLength(r, s, i, maxPayload);
    if n == 0 {
      assert s[i + 4..i + 4] == [];
    } else {
      FeedFromSplit(r, s, i, i + 4, i + 4 + n, maxPayload);
      FeedWholePayload(FeedFrom(r, s, i, i + 4, maxPayload), s, i + 4, n, maxPayload);
    }
  }

  /** A frame body that the stream cuts short emits nothing and counts nothing. */
  lemma FeedCutFrame(r: Run, s: seq<byte>, i: nat, maxPayload: u32)
    requires r.machine == InLength([]) && i <= |s|
    requires i + 4 <= |s| ==> LengthAt(s, i) <= maxPayload && i + 4 + LengthAt(s, i) > |s|
    ensures var e := FeedFrom(r, s, i, |s|, maxPayload); e.payloads == r.payloads && e.resyncs == r.resyncs
  {
    if i + 4 > |s| {
      FeedLength(r, s, i, |s| - i, maxPayload);
    } else {
      FeedWholeLength(r, s, i, maxPayload);
      FeedFromSplit(r, s, i, i + 4, |s|, maxPayload);
      FeedPayload(FeedFrom(r, s, i, i + 4, maxPayload), s, i + 4, |s| - i - 4, LengthAt(s, i), maxPayload);
    }
  }

  /** The machine after what follows a marker. */
  lemma FeedBody(r: Run, s: seq<byte>, i: nat, maxPayload: u32)
    requires r.machine == InLength([]) && i <= |s|
    ensures var b := BodyAt(s, i, maxPayload);
            var e := FeedFrom(r, s, i, if b.Cut? then |s| else b.end, maxPayload);
            && (b.Cut? ==> e.payloads == r.payloads && e.resyncs == r.resyncs)
            && (b.Impossible? ==> e == Run(Idle, r.payloads, r.resyncs + 1))
            && (b.Whole? ==> e == Run(Idle, r.payloads + [b.payload], r.resyncs))
  {
    var b := BodyAt(s, i, maxPayload);
    if b.Cut? {
      FeedCutFrame(r, s, i, maxPayload);
    } else if b.Impossible? {
      FeedWholeLength(r, s, i, maxPayload);
    } else {
      FeedFrame(r, s, i, maxPayload);
    }
  }

  /** r and e differ by what the parser read. */
  predicate Gained(r: Run, e: Run, p: Parsed) {
    e.payloads == r.payloads + p.payloads && e.resyncs == r.resyncs + p.resyncs
  }

  lemma GainedAfter(r: Run, mid: Run, e: Run, first: seq<seq<byte>>, drop: nat, rest: Parsed)
    requires mid.payloads == r.payloads + first && mid.resyncs == r.resyncs + drop && Gained(mid, e, rest)
    ensures Gained(r, e, Parsed(first + rest.payloads, drop + rest.resyncs))
  {
    assert r.payloads + first + rest.payloads == r.payloads + (first + rest.payloads);
  }

  /** The automaton started idle at i emits exactly what the parser reads from i on, and counts the same resyncs. */
  lemma {:induction false} RunIsParse(r: Run, s: seq<byte>, i: nat, maxPayload: u32)
    requires r.machine == Idle && i <= |s|
    ensures Gained(r, FeedFrom(r, s, i, |s|, maxPayload), Parse(s, i, maxPayload))
    decreases |s| - i, 0
  {
    var m := FirstMarker(s, i);
    if m == |s| {
      if i < |s| { FeedGarbage(r, s, i, |s|, maxPayload); }
    } else {
      FeedHeader(r, s, i, m, maxPayload);
      FeedFromSplit(r, s, i, m + 2, |s|, maxPayload);
      BodyIsParse(FeedFrom(r, s, i, m + 2, maxPayload), s, m + 2, maxPayload);
    }
  }

  lemma {:induction false} BodyIsParse(r: Run, s: seq<byte>, i: nat, maxPayload: u32)
    requires r.machine == InLength([]) && i <= |s|
    ensures Gained(r, FeedFrom(r, s, i, |s|, maxPayload), ParseBody(s, i, maxPayload))
    decreases |s| - i, 1
  {
    FeedBody(r, s, i, maxPayload);
    var b := BodyAt(s, i, maxPayload);
    if !b.Cut? {
      FeedFromSplit(r, s, i, b.end, |s|, maxPayload);
      var mid := FeedFrom(r, s, i, b.end, maxPayload);
      RunIsParse(mid, s, b.end, maxPayload);
      GainedAfter(r, mid, FeedFrom(r, s, i, |s|, maxPayload), if b.Whole? then [b.payload] else [],
                  if b.Whole? then 0 else 1, Parse(s, b.end, maxPayload));
    }
  }

  /** For every stream and every chunking, the reassembler emits what the whole-stream parser reads. */
  lemma ReassemblerRefinesParser(chunks: seq<seq<byte>>, maxPayload: u32)
    ensures var e := FeedChunks(FRESH, chunks, maxPayload); var p := Parse(Concat(chunks), 0, maxPayload);
            e.payloads == p.payloads && e.resyncs == p.resyncs
  {
    var s := Concat(chunks);
    ChunkingIrrelevant(FRESH, chunks, maxPayload);
    FeedIsFeedFrom(FRESH, s, |s|, maxPayload);
    assert s[..|s|] == s;
    RunIsParse(FRESH, s, 0, maxPayload);
  }

  // ---- recoverable streams --------------------------------------------------------------------

  function BigEndianBytes(n: u32): seq<byte> {
    [n / 0x100 / 0x100 / 0x100, n / 0x100 / 0x100 % 0x100, n / 0x100 % 0x100, n % 0x100]
  }

  function Wire(payload: seq<byte>): seq<byte>
    requires |payload| < 0x1_0000_0000
  {
    [START0, START1] + BigEndianBytes(|payload|) + payload
  }

  /** A frame on the wire: the two start bytes, the length with its highest byte first, the payload. */
  lemma WireIs(payload: seq<byte>)
    requires |payload| < 0x1_0000_0000
    ensures var w, n := Wire(payload), |payload|;
            && |w| == 6 + n && w[0] == 0xAB && w[1] == 0xCD && w[6..] == payload
            && var b2: int, b3: int, b4: int, b5: int := w[2], w[3], w[4], w[5];
               n == 0x100_0000 * b2 + 0x1_0000 * b3 + 0x100 * b4 + b5
  {
    BigEndianOfBytes(|payload|);
  }

  predicate Fit(payloads: seq<seq<byte>>, maxPayload: u32) {
    forall k :: 0 <= k < |payloads| ==> |payloads[k]| <= maxPayload
  }

  function WireAll(payloads: seq<seq<byte>>, maxPayload: u32): seq<byte>
    requires Fit(payloads, maxPayload)
  {
    if payloads == [] then [] else Wire(payloads[0]) + WireAll(payloads[1..], maxPayload)
  }

  lemma {:induction false} MarkerBehindGarbage(s: seq<byte>, i: nat, m: nat)
    requires i <= m && MarkerAt(s, m) && forall j :: i <= j < m ==> !MarkerAt(s, j)
    ensures FirstMarker(s, i) == m
    decreases m - i
  {
    if i < m { MarkerBehindGarbage(s, i + 1, m); }
  }

  lemma BigEndianOfBytes(n: u32)
    ensures var b := BigEndianBytes(n); BigEndian(b[0], b[1], b[2], b[3]) == n
  {
  }

  lemma WireAt(s: seq<byte>, before: seq<byte>, payload: seq<byte>, rest: seq<byte>)
    requires |payload| < 0x1_0000_0000 && s == before + Wire(payload) + rest
    ensures var m := |before|;
            && MarkerAt(s, m) && m + 6 + |payload| <= |s|
            && LengthAt(s, m + 2) == |payload| && s[m + 6..m + 6 + |payload|] == payload
  {
    var w, n, m := Wire(payload), |payload|, |before|;
    assert forall k :: 0 <= k < |w| ==> s[m + k] == w[k];
    assert s[m] == START0 && s[m + 1] == START1;
    assert LengthAt(s, m + 2) == n by {
      var b := BigEndianBytes(n);
      assert s[m + 2] == b[0] && s[m + 3] == b[1] && s[m + 4] == b[2] && s[m + 5] == b[3];
      BigEndianOfBytes(n);
    }
    assert s[m + 6..m + 6 + n] == w[6..];
  }

  /** What a parse that starts with a whole frame reads. */
  function WithFirst(payload: seq<byte>, rest: Parsed): Parsed { Parsed([payload] + rest.payloads, rest.resyncs) }

  lemma ParseWhole(s: seq<byte>, i: nat, maxPayload: u32)
    requires MarkerAt(s, i) && i + 6 <= |s| && LengthAt(s, i + 2) <= maxPayload && i + 6 + LengthAt(s, i + 2) <= |s|
    ensures var end := i + 6 + LengthAt(s, i + 2);
            Parse(s, i, maxPayload) == WithFirst(s[i + 6..end], Parse(s, end, maxPayload))
  {
    assert FirstMarker(s, i) == i && FalseStarts(s, i, i) == 0;
    assert BodyAt(s, i + 2, maxPayload) == Whole(s[i + 6..i + 6 + LengthAt(s, i + 2)], i + 6 + LengthAt(s, i + 2));
  }

  type Parser = (seq<byte>, nat) -> Parsed

  function WholeStreamParser(maxPayload: u32): Parser {
    (s: seq<byte>, i: nat) => if i <= |s| then Parse(s, i, maxPayload) else Parsed([], 0)
  }

  /** A whole frame at i is read, and the rest of the stream after it. */
  ghost predicate ReadsWhole(parse: Parser, maxPayload: u32) {
    forall s: seq<byte>, i: nat :: i + 6 <= |s| && MarkerAt(s, i) ==>
      var n := LengthAt(s, i + 2);
      n <= maxPayload && i + 6 + n <= |s| ==>
        parse(s, i) == WithFirst(s[i + 6..i + 6 + n], parse(s, i + 6 + n))
  }

  /** What lies before a marker holds no payload. */
  ghost predicate SkipsGarbage(parse: Parser) {
    forall s: seq<byte>, i: nat, m: nat ::
      i <= m && MarkerAt(s, m) && (forall j :: i <= j < m ==> !MarkerAt(s, j)) ==>
        parse(s, i).payloads == parse(s, m).payloads
  }

  /** Frames put on the wire are read back one by one, and nothing is read at the end. */
  ghost predicate ReadsWires(parse: Parser, maxPayload: u32) {
    && (forall s: seq<byte> :: parse(s, |s|) == Parsed([], 0))
    && (forall b: seq<byte>, p: seq<byte>, r: seq<byte> {:trigger parse(b + Wire(p) + r, |b|)} :: |p| <= maxPayload ==>
          parse(b + Wire(p) + r, |b|) == WithFirst(p, parse(b + Wire(p) + r, |b + Wire(p)|)))
  }

  lemma ParserReadsWhole(maxPayload: u32)
    ensures ReadsWhole(WholeStreamParser(maxPayload), maxPayload)
  {
    forall s: seq<byte>, i: nat | i + 6 <= |s| && MarkerAt(s, i) && LengthAt(s, i + 2) <= maxPayload
                                  && i + 6 + LengthAt(s, i + 2) <= |s|
      ensures var end := i + 6 + LengthAt(s, i + 2);
              Parse(s, i, maxPayload) == WithFirst(s[i + 6..end], Parse(s, end, maxPayload))
    {
      ParseWhole(s, i, maxPayload);
    }
  }

  lemma ParserSkipsGarbage(maxPayload: u32)
    ensures SkipsGarbage(WholeStreamParser(maxPayload))
  {
    forall s: seq<byte>, i: nat, m: nat | i <= m && MarkerAt(s, m) && (forall j :: i <= j < m ==> !MarkerAt(s, j))
      ensures Parse(s, i, maxPayload).payloads == Parse(s, m, maxPayload).payloads
    {
      MarkerBehindGarbage(s, i, m);
      MarkerBehindGarbage(s, m, m);
    }
  }

  lemma WholeReadsWires(parse: Parser, maxPayload: u32)
    requires ReadsWhole(parse, maxPayload) && forall s: seq<byte> :: parse(s, |s|) == Parsed([], 0)
    ensures ReadsWires(parse, maxPayload)
  {
    forall b: seq<byte>, p: seq<byte>, r: seq<byte> | |p| <= maxPayload
      ensures parse(b + Wire(p) + r, |b|) == WithFirst(p, parse(b + Wire(p) + r, |b + Wire(p)|))
    {
      WireAt(b + Wire(p) + r, b, p, r);
    }
  }

  /** Frames back to back are all read, with no resync. */
  lemma {:induction false} ParseFrames(parse: Parser, before: seq<byte>, payloads: seq<seq<byte>>, maxPayload: u32)
    requires ReadsWires(parse, maxPayload) && Fit(payloads, maxPayload)
    ensures parse(before + WireAll(payloads, maxPayload), |before|) == Parsed(payloads, 0)
    decreases |payloads|
  {
    var all := WireAll(payloads, maxPayload);
    if payloads == [] {
      assert before + all == before;
    } else {
      var p, rest := payloads[0], WireAll(payloads[1..], maxPayload);
      assert before + all == before + Wire(p) + rest;
      ParseFrames(parse, before + Wire(p), payloads[1..], maxPayload);
      assert parse(before + Wire(p) + rest, |before|) == WithFirst(p, Parsed(payloads[1..], 0));
      assert payloads == [p] + payloads[1..];
    }
  }

  lemma ParsePastGarbage(parse: Parser, garbage: seq<byte>, payloads: seq<seq<byte>>, maxPayload: u32)
    requires SkipsGarbage(parse) && Fit(payloads, maxPayload) && payloads != []
    requires parse(garbage + WireAll(payloads, maxPayload), |garbage|) == Parsed(payloads, 0)
    requires forall j :: 0 <= j < |garbage| ==> !MarkerAt(garbage, j)
    ensures parse(garbage + WireAll(payloads, maxPayload), 0).payloads == payloads
  {
    var s, g := garbage + WireAll(payloads, maxPayload), |garbage|;
    var w, rest := Wire(payloads[0]), WireAll(payloads[1..], maxPayload);
    assert s == garbage + w + rest;
    WireAt(s, garbage, payloads[0], rest);
    forall j | 0 <= j < g ensures !MarkerAt(s, j) {
      assert !MarkerAt(garbage, j);
      assert s[g] == w[0];
    }
  }

  /**
   * Garbage that holds no start marker (it may end in a first start byte), then any frames up to the limit: exactly
   * those payloads come out, however the stream is chunked.
   */
  lemma ResyncsPastGarbage(garbage: seq<byte>, payloads: seq<seq<byte>>, chunks: seq<seq<byte>>, maxPayload: u32)
    requires Fit(payloads, maxPayload)
    requires forall j :: 0 <= j < |garbage| ==> !MarkerAt(garbage, j)
    requires Concat(chunks) == garbage + WireAll(payloads, maxPayload)
    ensures FeedChunks(FRESH, chunks, maxPayload).payloads == payloads
  {
    ReassemblerRefinesParser(chunks, maxPayload);
    if payloads == [] {
      assert Concat(chunks) == garbage;
      assert FirstMarker(garbage, 0) == |garbage|;
    } else {
      var parse := WholeStreamParser(maxPayload);
      ParserReadsWhole(maxPayload);
      WholeReadsWires(parse, maxPayload);
      ParseFrames(parse, garbage, payloads, maxPayload);
      ParserSkipsGarbage(maxPayload);
      ParsePastGarbage(parse, garbage, payloads, maxPayload);
    }
  }

  // ---- the class --------------------------------------------------------------------------------

  class TcpReassembler {
    const maxPayload: u32
    var state: nat
    const sizeBytes: array<byte>
    var sizeIdx: nat
    var payloadSize: u32
    var payload: seq<byte>
    var payloadsEmitted: nat
    var resyncs: nat
    /** What the callback has received. */
    ghost var emitted: seq<seq<byte>>

    /** Bytes held back never exceed the limit. */
    ghost predicate Valid()
      reads this
    {
      && sizeBytes.Length == 4
      && state <= 3 && sizeIdx < 4
      && (state == 3 ==> |payload| < payloadSize <= maxPayload)
      && |payload| <= maxPayload
      && payloadsEmitted == |emitted|
    }

    ghost function State(): Run
      requires Valid()
      reads this, sizeBytes
    {
      var machine :=
        if state == 0 then Idle
        else if state == 1 then GotStart
        else if state == 2 then InLength(sizeBytes[..sizeIdx])
        else InPayload(payloadSize, payload);
      Run(machine, emitted, resyncs)
    }

    constructor (maxPayload: u32)
      ensures Valid() && fresh(sizeBytes) && this.maxPayload == maxPayload
      ensures State() == FRESH
    {
      this.maxPayload := maxPayload;
      state := 0;
      sizeBytes := new byte[4](_ => 0);
      sizeIdx := 0;
      payloadSize := 0;
      payload := [];
      payloadsEmitted := 0;
      resyncs := 0;
      emitted := [];
    }

    method FeedBytes(data: seq<byte>)
      requires Valid()
      modifies this, sizeBytes
      ensures Valid()
      ensures State() == Feed(old(State()), data, maxPayload)
    {
      for i := 0 to |data|
        invariant Valid()
        invariant State() == Feed(old(State()), data[..i], maxPayload)
      {
        assert data[..i + 1] == data[..i] + [data[i]];
        FeedAppend(old(State()), data[..i], [data[i]], maxPayload);
        ghost var s := State();
        assert Feed(s, [data[i]], maxPayload) == Feed(Step(s, data[i], maxPayload), [], maxPayload);
        FeedByte(data[i]);
      }
      assert data[..|data|] == data;
    }

    /** Drops the frame in progress; what was emitted and the counters stay. */
    method Reset()
      requires Valid()
      modifies this
      ensures Valid()
      ensures State() == old(State()).(machine := Idle)
    {
      state := 0;
      sizeIdx := 0;
      payloadSize := 0;
      payload := [];
    }

    method FeedByte(b: byte)
      requires Valid()
      modifies this, sizeBytes
      ensures Valid()
      ensures State() == Step(old(State()), b, maxPayload)
    {
      if state == 0 {
        if b == START0 {
          state := 1;
        }
      } else if state == 1 {
        if b == START1 {
          state := 2;
          sizeIdx := 0;
        } else if b == START0 {
          state := 1;
        } else {
          state := 0;
          resyncs := resyncs + 1;
        }
      } else if state == 2 {
        ghost var before := sizeBytes[..sizeIdx];
        sizeBytes[sizeIdx] := b;
        assert sizeBytes[..sizeIdx] == before;
        assert sizeBytes[..sizeIdx + 1] == before + [b];
        sizeIdx := sizeIdx + 1;
        if sizeIdx == 4 {
          sizeIdx := 0;
          payloadSize := BigEndian(sizeBytes[0], sizeBytes[1], sizeBytes[2], sizeBytes[3]);
          if payloadSize > maxPayload {
            state := 0;
            payloadSize := 0;
            resyncs := resyncs + 1;
          } else if payloadSize == 0 {
            emitted := emitted + [[]];
            payloadsEmitted := payloadsEmitted + 1;
            state := 0;
          } else {
            payload := [];
            state := 3;
          }
        }
      } else {
        payload := payload + [b];
        if |payload| == payloadSize {
          emitted := emitted + [payload];
          payloadsEmitted := payloadsEmitted + 1;
          payload := [];
          state := 0;
        }
      }
    }
  }
}
