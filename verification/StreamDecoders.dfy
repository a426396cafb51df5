/** The two length-delimited stream decoders of the topology gate: the chunked
    transfer coding (section 7.1 of RFC 9112) and Docker's multiplexed exec stream. */
module StreamDecoders {
  import opened Wrappers

  type byte = b: int | 0 <= b < 256

  // ----- Docker exec frames

  datatype Frame = Frame(channel: byte, data: seq<byte>)
  datatype Output = Output(stdout: seq<byte>, stderr: seq<byte>)

  const MAX_FRAME := 0x1_0000_0000

  function BigEndian(n: nat): (s: seq<byte>)
    requires n < MAX_FRAME
    ensures |s| == 4
  {
    [n / 0x100_0000, n / 0x1_0000 % 256, n / 256 % 256, n % 256]
  }

  function FromBigEndian(s: seq<byte>): nat
    requires |s| == 4
  {
    var a: int, b: int, c: int, d: int := s[0], s[1], s[2], s[3];
    a * 0x100_0000 + b * 0x1_0000 + c * 256 + d
  }

  lemma BigEndianRoundTrip(n: nat)
    requires n < MAX_FRAME
    ensures FromBigEndian(BigEndian(n)) == n
  {
    assert n / 0x1_0000 == n / 0x100_0000 * 256 + n / 0x1_0000 % 256;
    assert n / 256 == n / 0x1_0000 * 256 + n / 256 % 256;
  }

  /** Frame by frame; any malformed or incomplete frame is an error. */
  function Demux(payload: seq<byte>): Result<Output>
    decreases |payload|
  {
    if payload == [] then Ok(Output([], []))
    else if |payload| < 8 || payload[1..4] != [0, 0, 0] then Err
    else
      var length := FromBigEndian(payload[4..8]);
      if |payload| - 8 < length || payload[0] !in {1, 2} then Err
      else Prepend(Frame(payload[0], payload[8..8 + length]), Demux(payload[8 + length..]))
  }

  function Prepend(f: Frame, rest: Result<Output>): Result<Output> {
    if rest.Err? then Err
    else if f.channel == 1 then Ok(rest.value.(stdout := f.data + rest.value.stdout))
    else Ok(rest.value.(stderr := f.data + rest.value.stderr))
  }

  /** What is already collected, followed by the rest. */
  function Gather(stdout: seq<byte>, stderr: seq<byte>, rest: Result<Output>): Result<Output> {
    if rest.Err? then Err else Ok(Output(stdout + rest.value.stdout, stderr + rest.value.stderr))
  }

  lemma GatherFrame(stdout: seq<byte>, stderr: seq<byte>, f: Frame, rest: Result<Output>)
    ensures Gather(stdout, stderr, Prepend(f, rest)) ==
            if f.channel == 1 then Gather(stdout + f.data, stderr, rest) else Gather(stdout, stderr + f.data, rest)
  {
    if rest.Ok? {
      assert stdout + (f.data + rest.value.stdout) == stdout + f.data + rest.value.stdout;
      assert stderr + (f.data + rest.value.stderr) == stderr + f.data + rest.value.stderr;
    }
  }

  lemma GatherNothing(r: Result<Output>)
    ensures Gather([], [], r) == r
  {
    if r.Ok? {
      assert [] + r.value.stdout == r.value.stdout && [] + r.value.stderr == r.value.stderr;
    }
  }

  method ParseDockerExecFrames(payload: seq<byte>) returns (r: Result<Output>)
    ensures r == Demux(payload)
  {
    var stdout, stderr: seq<byte> := [], [];
    var left := payload;
    GatherNothing(Demux(payload));
    while left != []
      invariant Demux(payload) == Gather(stdout, stderr, Demux(left))
      decreases |left|
    {
      if |left| < 8 { return Err; }
      var stream := left[0];
      if left[1..4] != [0, 0, 0] { return Err; }
      var length := FromBigEndian(left[4..8]);
      if |left| - 8 < length { return Err; }
      if stream !in {1, 2} { return Err; }
      var frame := left[8..8 + length];
      assert Demux(left) == Prepend(Frame(stream, frame), Demux(left[8 + length..]));
      GatherFrame(stdout, stderr, Frame(stream, frame), Demux(left[8 + length..]));
      if stream == 1 {
        stdout := stdout + frame;
      } else {
        stderr := stderr + frame;
      }
      left := left[8 + length..];
    }
    assert stdout + [] == stdout && stderr + [] == stderr;
    r := Ok(Output(stdout, stderr));
  }

  predicate Sendable(f: Frame) {
    f.channel in {1, 2} && |f.data| < MAX_FRAME
  }

  function Packet(f: Frame): (p: seq<byte>)
    requires Sendable(f)
    ensures |p| == 8 + |f.data|
  {
    [f.channel, 0, 0, 0] + BigEndian(|f.data|) + f.data
  }

  function Mux(fs: seq<Frame>): seq<byte>
    requires forall f :: f in fs ==> Sendable(f)
  {
    if fs == [] then [] else Packet(fs[0]) + Mux(fs[1..])
  }

  /** The frames' data, by channel and in order. */
  function Channels(fs: seq<Frame>): Output {
    if fs == [] then Output([], [])
    else
      var rest := Channels(fs[1..]);
      if fs[0].channel == 1 then rest.(stdout := fs[0].data + rest.stdout)
      else rest.(stderr := fs[0].data + rest.stderr)
  }

  /** One packet is taken off the front. */
  lemma DemuxPacket(f: Frame, tail: seq<byte>)
    requires Sendable(f)
    ensures Demux(Packet(f) + tail) == Prepend(f, Demux(tail))
  {
    var p := Packet(f) + tail;
    PacketHeader(f);
    assert p[1..4] == Packet(f)[1..4] && p[4..8] == Packet(f)[4..8];
    BigEndianRoundTrip(|f.data|);
    assert p[8..8 + |f.data|] == f.data;
    assert p[8 + |f.data|..] == tail;
  }

  lemma PacketHeader(f: Frame)
    requires Sendable(f)
    ensures Packet(f)[1..4] == [0, 0, 0] && Packet(f)[4..8] == BigEndian(|f.data|)
  {
  }

  /** A packet cut short is rejected. */
  lemma DemuxCut(f: Frame, k: nat)
    requires Sendable(f) && 0 < k < |Packet(f)|
    ensures Demux(Packet(f)[..k]).Err?
  {
    var p := Packet(f)[..k];
    if k >= 8 {
      PacketHeader(f);
      assert p[4..8] == Packet(f)[4..8];
      BigEndianRoundTrip(|f.data|);
    }
  }

  /** Decoding undoes encoding. */
  lemma {:induction false} DemuxUndoesMux(fs: seq<Frame>)
    requires forall f :: f in fs ==> Sendable(f)
    ensures Demux(Mux(fs)) == Ok(Channels(fs))
    decreases |fs|
  {
    if fs != [] {
      DemuxUndoesMux(fs[1..]);
      DemuxPacket(fs[0], Mux(fs[1..]));
    }
  }

  lemma {:induction false} MuxPrefix(fs: seq<Frame>, n: nat)
    requires (forall f :: f in fs ==> Sendable(f)) && n <= |fs|
    ensures Mux(fs[..n]) <= Mux(fs)
    decreases n
  {
    if n > 0 {
      MuxPrefix(fs[1..], n - 1);
      assert fs[..n][0] == fs[0] && fs[..n][1..] == fs[1..][..n - 1];
    }
  }

  /** A cut that is accepted falls on a frame boundary. */
  lemma {:induction false} AcceptedCut(fs: seq<Frame>, k: nat) returns (n: nat)
    requires (forall f :: f in fs ==> Sendable(f)) && k <= |Mux(fs)| && Demux(Mux(fs)[..k]).Ok?
    ensures n <= |fs| && k == |Mux(fs[..n])|
    decreases |fs|
  {
    if k == 0 {
      return 0;
    }
    var size := |Packet(fs[0])|;
    if k < size {
      assert Mux(fs)[..k] == Packet(fs[0])[..k];
      DemuxCut(fs[0], k);
    }
    var rest := Mux(fs[1..])[..k - size];
    assert Mux(fs)[..k] == Packet(fs[0]) + rest;
    DemuxPacket(fs[0], rest);
    var m := AcceptedCut(fs[1..], k - size);
    n := m + 1;
    assert fs[..n][0] == fs[0] && fs[..n][1..] == fs[1..][..m];
  }

  /** A stream cut after k bytes is accepted exactly when the cut falls on a frame
      boundary, and then yields the channels of the frames before it. */
  lemma DemuxAcceptsBoundaries(fs: seq<Frame>, k: nat)
    requires (forall f :: f in fs ==> Sendable(f)) && k <= |Mux(fs)|
    ensures Demux(Mux(fs)[..k]).Ok? <==> exists n :: 0 <= n <= |fs| && k == |Mux(fs[..n])|
    ensures forall n :: 0 <= n <= |fs| && k == |Mux(fs[..n])| ==> Demux(Mux(fs)[..k]) == Ok(Channels(fs[..n]))
  {
    if Demux(Mux(fs)[..k]).Ok? {
      var n := AcceptedCut(fs, k);
    }
    forall n | 0 <= n <= |fs| && k == |Mux(fs[..n])| ensures Demux(Mux(fs)[..k]) == Ok(Channels(fs[..n])) {
      MuxPrefix(fs, n);
      assert Mux(fs)[..k] == Mux(fs[..n]);
      DemuxUndoesMux(fs[..n]);
    }
  }

  lemma FromBigEndianRoundTrip(s: seq<byte>)
    requires |s| == 4
    ensures FromBigEndian(s) < MAX_FRAME && BigEndian(FromBigEndian(s)) == s
  {
    var a: int, b: int, c: int, d: int := s[0], s[1], s[2], s[3];
    var n := FromBigEndian(s);
    assert n == ((a * 256 + b) * 256 + c) * 256 + d;
    assert n / 256 == (a * 256 + b) * 256 + c && n % 256 == d;
    assert n / 0x1_0000 == a * 256 + b && n / 256 % 256 == c;
    assert n / 0x100_0000 == a && n / 0x1_0000 % 256 == b;
  }

  ghost predicate Carries(fs: seq<Frame>, payload: seq<byte>, o: Output) {
    (forall f :: f in fs ==> Sendable(f)) && Mux(fs) == payload && Channels(fs) == o
  }

  /** The first frame of an accepted payload. */
  lemma DemuxSplits(payload: seq<byte>) returns (f: Frame, rest: seq<byte>)
    requires payload != [] && Demux(payload).Ok?
    ensures Sendable(f) && payload == Packet(f) + rest && Demux(payload) == Prepend(f, Demux(rest))
  {
    var length := FromBigEndian(payload[4..8]);
    FromBigEndianRoundTrip(payload[4..8]);
    f, rest := Frame(payload[0], payload[8..8 + length]), payload[8 + length..];
    assert payload[0..4] == [payload[0]] + payload[1..4];
    assert payload == payload[0..4] + payload[4..8] + payload[8..8 + length] + payload[8 + length..];
  }

  lemma {:induction false} DemuxIsMux(payload: seq<byte>) returns (fs: seq<Frame>)
    requires Demux(payload).Ok?
    ensures Carries(fs, payload, Demux(payload).value)
    decreases |payload|
  {
    if payload == [] {
      fs := [];
    } else {
      var f, rest := DemuxSplits(payload);
      var tail := DemuxIsMux(rest);
      fs := [f] + tail;
      assert fs[1..] == tail;
    }
  }

  /** Exactly the payloads that are packets one after the other are accepted, with their data by channel. */
  lemma DemuxAcceptsExactly(payload: seq<byte>, o: Output)
    ensures Demux(payload) == Ok(o) <==> exists fs :: Carries(fs, payload, o)
  {
    if Demux(payload) == Ok(o) {
      var fs := DemuxIsMux(payload);
    }
    forall fs | Carries(fs, payload, o) ensures Demux(payload) == Ok(o) {
      DemuxUndoesMux(fs);
    }
  }

  // ----- chunked transfer coding

  const CR: byte := 13
  const LF: byte := 10
  const SEMICOLON: byte := 59

  function HexDigit(b: byte): Option<nat> {
    if 48 <= b <= 57 then Some(b - 48)
    else if 65 <= b <= 70 then Some(b - 55)
    else if 97 <= b <= 102 then Some(b - 87)
    else None
  }

  const LOWER: seq<byte> := [48, 49, 50, 51, 52, 53, 54, 55, 56, 57, 97, 98, 99, 100, 101, 102]
  const UPPER: seq<byte> := [48, 49, 50, 51, 52, 53, 54, 55, 56, 57, 65, 66, 67, 68, 69, 70]

  /** A digit is read as its place in the one or the other row of sixteen. */
  lemma HexDigitExactly(b: byte, n: nat)
    ensures HexDigit(b) == Some(n) <==> n < 16 && (b == LOWER[n] || b == UPPER[n])
  {
  }

  const UNDERSCORE: byte := 95
  const PLUS: byte := 43
  const MINUS: byte := 45

  predicate Blank(b: byte) { b == 32 || 9 <= b <= 13 }

  function Trim(s: seq<byte>): seq<byte> {
    if s == [] then []
    else if Blank(s[0]) then Trim(s[1..])
    else if Blank(s[|s| - 1]) then Trim(s[..|s| - 1])
    else s
  }

  /** Hexadecimal digits, with single underscores between them. */
  function Digits(s: seq<byte>): Option<nat> {
    if s == [] then None
    else
      var d, front := HexDigit(s[|s| - 1]), s[..|s| - 1];
      if d.None? || front == [] then d
      else
        var high := Digits(if front[|front| - 1] == UNDERSCORE then front[..|front| - 1] else front);
        if high.None? then None else Some(high.value * 16 + d.value)
  }

  function Unsigned(s: seq<byte>): seq<byte> {
    if s != [] && (s[0] == MINUS || s[0] == PLUS) then s[1..] else s
  }

  /** Without a `0x` prefix, after which one underscore may stand. */
  function Unprefixed(s: seq<byte>): seq<byte> {
    if |s| < 2 || s[0] != 48 || (s[1] != 120 && s[1] != 88) then s
    else if |s| > 2 && s[2] == UNDERSCORE then s[3..]
    else s[2..]
  }

  /** Python's `int(s, 16)`. */
  function HexValue(s: seq<byte>): Option<int> {
    var t := Trim(s);
    var n := Digits(Unprefixed(Unsigned(t)));
    if n.None? then None
    else
      var size: int := n.value;
      Some(if t != [] && t[0] == MINUS then -size else size)
  }

  // ----- what such a number looks like

  predicate IsHex(b: byte) {
    48 <= b <= 57 || 65 <= b <= 70 || 97 <= b <= 102
  }

  /** Digits, with single underscores between them. */
  predicate Grouped(s: seq<byte>) {
    && s != [] && IsHex(s[0]) && IsHex(s[|s| - 1])
    && (forall i :: 0 <= i < |s| ==> IsHex(s[i]) || s[i] == UNDERSCORE)
    && (forall i, j :: 0 <= i < j == i + 1 < |s| ==> IsHex(s[i]) || IsHex(s[j]))
  }

  /** The number the digits write, whatever stands between them. */
  function Weight(s: seq<byte>): nat {
    if s == [] then 0
    else
      var d := HexDigit(s[|s| - 1]);
      if d.None? then Weight(s[..|s| - 1]) else Weight(s[..|s| - 1]) * 16 + d.value
  }

  lemma GroupedPrefix(s: seq<byte>, n: nat)
    requires 0 < n <= |s|
    ensures Grouped(s) && IsHex(s[n - 1]) ==> Grouped(s[..n])
  {
    var t := s[..n];
    assert forall i :: 0 <= i < n ==> t[i] == s[i];
  }

  lemma GroupedMore(front: seq<byte>, d: byte)
    requires Grouped(front) && IsHex(d)
    ensures Grouped(front + [d]) && Grouped(front + [UNDERSCORE, d])
  {
    var s, t, n := front + [d], front + [UNDERSCORE, d], |front|;
    assert forall i :: 0 <= i < n ==> s[i] == front[i] == t[i];
    assert s[n] == d && t[n] == UNDERSCORE && t[n + 1] == d && IsHex(front[n - 1]);
  }

  /** All but the last digit, and the underscore before it if there is one. */
  function Higher(s: seq<byte>): seq<byte>
    requires |s| > 1
  {
    if s[|s| - 2] == UNDERSCORE then s[..|s| - 2] else s[..|s| - 1]
  }

  lemma GroupedHigher(s: seq<byte>)
    requires |s| > 1
    ensures Grouped(s) <==> IsHex(s[|s| - 1]) && Grouped(Higher(s))
  {
    var n := |s| - 1;
    var inner, d := Higher(s), s[n];
    if Grouped(s) {
      assert IsHex(s[n - 1]) || s[n - 1] == UNDERSCORE;
      assert s[n - 1] == UNDERSCORE ==> n >= 2 && IsHex(s[n - 2]);
      GroupedPrefix(s, |inner|);
    }
    if IsHex(d) && Grouped(inner) {
      GroupedMore(inner, d);
      assert s == if s[n - 1] == UNDERSCORE then inner + [UNDERSCORE, d] else inner + [d];
    }
  }

  lemma WeightHigher(s: seq<byte>)
    requires |s| > 1 && HexDigit(s[|s| - 1]).Some?
    ensures Weight(s) == Weight(Higher(s)) * 16 + HexDigit(s[|s| - 1]).value
  {
    var front := s[..|s| - 1];
    assert front[|front| - 1] == s[|s| - 2];
    if s[|s| - 2] == UNDERSCORE {
      WeightSkips(front);
      assert front[..|front| - 1] == Higher(s);
    }
  }

  lemma DigitsHigher(s: seq<byte>)
    requires |s| > 1
    ensures Digits(s) == if HexDigit(s[|s| - 1]).None? || Digits(Higher(s)).None? then None
                         else Some(Digits(Higher(s)).value * 16 + HexDigit(s[|s| - 1]).value)
  {
    var front := s[..|s| - 1];
    assert front[|front| - 1] == s[|s| - 2] && front[..|front| - 1] == s[..|s| - 2];
  }

  lemma {:induction false} DigitsExactly(s: seq<byte>)
    ensures Digits(s) == if Grouped(s) then Some(Weight(s)) else None
    decreases |s|
  {
    if |s| == 1 {
      assert Weight(s[..0]) == 0;
    } else if |s| > 1 {
      hide Grouped, Weight, Digits;
      DigitsExactly(Higher(s));
      DigitsHigher(s);
      GroupedHigher(s);
      if IsHex(s[|s| - 1]) {
        WeightHigher(s);
      }
    }
  }

  lemma WeightSkips(s: seq<byte>)
    requires s != [] && s[|s| - 1] == UNDERSCORE
    ensures Weight(s) == Weight(s[..|s| - 1])
  {
  }

  /** Nothing, or `0x` in either case with an optional underscore. */
  predicate IsPrefix(p: seq<byte>) {
    p == [] || ((|p| == 2 || (|p| == 3 && p[2] == UNDERSCORE)) && p[0] == 48 && (p[1] == 120 || p[1] == 88))
  }

  predicate IsSign(s: seq<byte>) {
    s == [] || s == [PLUS] || s == [MINUS]
  }

  /** Blanks, a sign, a prefix, the digits, blanks. */
  datatype Spelling = Spelling(before: seq<byte>, sign: seq<byte>, prefix: seq<byte>, digits: seq<byte>, after: seq<byte>)

  predicate Spells(s: seq<byte>, p: Spelling, v: int) {
    && s == p.before + (p.sign + p.prefix + p.digits) + p.after
    && AllBlank(p.before) && AllBlank(p.after)
    && IsSign(p.sign) && IsPrefix(p.prefix) && Grouped(p.digits)
    && v == if p.sign == [MINUS] then 0 - Weight(p.digits) else Weight(p.digits)
  }

  /** Tab, line feed, vertical tab, form feed, carriage return or space. */
  predicate IsSpace(b: byte) {
    b == 9 || b == 10 || b == 11 || b == 12 || b == 13 || b == 32
  }

  predicate AllBlank(s: seq<byte>) {
    forall i :: 0 <= i < |s| ==> IsSpace(s[i])
  }

  lemma {:induction false} TrimAround(before: seq<byte>, core: seq<byte>, after: seq<byte>)
    requires AllBlank(before) && AllBlank(after) && core != [] && !Blank(core[0]) && !Blank(core[|core| - 1])
    ensures Trim(before + core + after) == core
    decreases |before| + |after|
  {
    var s := before + core + after;
    if before != [] {
      assert s[0] == before[0] && s[1..] == before[1..] + core + after;
      TrimAround(before[1..], core, after);
    } else if after != [] {
      var n := |after| - 1;
      assert s[0] == core[0] && s[|s| - 1] == after[n] && s[..|s| - 1] == before + core + after[..n];
      TrimAround(before, core, after[..n]);
    } else {
      assert s == core;
    }
  }

  lemma {:induction false} TrimSplits(s: seq<byte>) returns (before: seq<byte>, after: seq<byte>)
    ensures AllBlank(before) && AllBlank(after) && s == before + Trim(s) + after
    decreases |s|
  {
    hide AllBlank, Blank;
    NoBlank();
    if s == [] || (!Blank(s[0]) && !Blank(s[|s| - 1])) {
      before, after := [], [];
    } else if Blank(s[0]) {
      var rest;
      rest, after := TrimSplits(s[1..]);
      before := [s[0]] + rest;
      Regroup([s[0]], rest, Trim(s[1..]), after);
      MoreBlank(s[0], rest);
      assert s == [s[0]] + s[1..];
    } else {
      var n, rest := |s| - 1, [];
      before, rest := TrimSplits(s[..n]);
      after := rest + [s[n]];
      MoreBlank(s[n], rest);
      assert before + Trim(s[..n]) + (rest + [s[n]]) == before + Trim(s[..n]) + rest + [s[n]];
      assert s == s[..n] + [s[n]];
    }
  }

  lemma Regroup(a: seq<byte>, b: seq<byte>, c: seq<byte>, d: seq<byte>)
    ensures a + (b + c + d) == (a + b) + c + d
  {
  }

  lemma NoBlank()
    ensures AllBlank([])
  {
  }

  lemma MoreBlank(b: byte, s: seq<byte>)
    requires Blank(b) && AllBlank(s)
    ensures AllBlank([b] + s) && AllBlank(s + [b])
  {
  }

  lemma UnprefixedOf(prefix: seq<byte>, digits: seq<byte>)
    requires IsPrefix(prefix) && Grouped(digits)
    ensures Unprefixed(prefix + digits) == digits
  {
    var s := prefix + digits;
    assert |digits| > 1 ==> IsHex(digits[1]) || digits[1] == UNDERSCORE;
    if prefix == [] {
      assert s == digits;
    } else {
      assert s[0] == 48 && s[1] == prefix[1] && s[|prefix|..] == digits;
    }
  }

  lemma PrefixTaken(s: seq<byte>) returns (prefix: seq<byte>)
    ensures IsPrefix(prefix) && s == prefix + Unprefixed(s)
  {
    var n := |s| - |Unprefixed(s)|;
    prefix := s[..n];
    assert n == 2 ==> prefix == [s[0], s[1]];
    assert n == 3 ==> prefix == [s[0], s[1], s[2]];
  }

  lemma RestEnds(prefix: seq<byte>, digits: seq<byte>)
    requires IsPrefix(prefix) && Grouped(digits)
    ensures var rest := prefix + digits; rest != [] && IsHex(rest[0]) && IsHex(rest[|rest| - 1])
  {
    var rest := prefix + digits;
    assert IsHex(digits[0]) && IsHex(digits[|digits| - 1]);
    hide Grouped, IsHex;
    assert rest[|rest| - 1] == digits[|digits| - 1];
    if prefix == [] {
      assert rest == digits;
    } else {
      assert rest[0] == prefix[0] == 48;
      assert IsHex(48) by { HexZero(); }
    }
  }

  lemma HexZero()
    ensures IsHex(48)
  {
  }

  lemma CoreEnds(sign: seq<byte>, rest: seq<byte>)
    requires IsSign(sign) && rest != [] && IsHex(rest[0]) && IsHex(rest[|rest| - 1])
    ensures var core := sign + rest;
            && core != [] && !Blank(core[0]) && !Blank(core[|core| - 1])
            && Unsigned(core) == rest && (core[0] == MINUS <==> sign == [MINUS])
  {
    var core := sign + rest;
    if sign == [] {
      assert core == rest;
    } else {
      assert core[0] == sign[0] && core[1..] == rest && core[|core| - 1] == rest[|rest| - 1];
    }
  }

  lemma SpelledValue(s: seq<byte>, p: Spelling, v: int)
    requires Spells(s, p, v)
    ensures HexValue(s) == Some(v)
  {
    hide Trim, Digits, Grouped, Weight, Unprefixed, Unsigned, AllBlank, Blank;
    RestEnds(p.prefix, p.digits);
    CoreEnds(p.sign, p.prefix + p.digits);
    assert p.sign + p.prefix + p.digits == p.sign + (p.prefix + p.digits);
    TrimAround(p.before, p.sign + p.prefix + p.digits, p.after);
    UnprefixedOf(p.prefix, p.digits);
    DigitsExactly(p.digits);
  }

  lemma SignTaken(t: seq<byte>) returns (sign: seq<byte>)
    ensures IsSign(sign) && t == sign + Unsigned(t)
    ensures sign == [MINUS] <==> t != [] && t[0] == MINUS
  {
    sign := if t != [] && (t[0] == MINUS || t[0] == PLUS) then [t[0]] else [];
  }

  lemma ValueSpelled(s: seq<byte>) returns (p: Spelling)
    requires HexValue(s).Some?
    ensures Spells(s, p, HexValue(s).value)
  {
    var t := Trim(s);
    hide Trim, Digits, Grouped, Weight, Unprefixed, Unsigned;
    var before, after := TrimSplits(s);
    var sign := SignTaken(t);
    var prefix := PrefixTaken(Unsigned(t));
    var digits := Unprefixed(Unsigned(t));
    DigitsExactly(digits);
    p := Spelling(before, sign, prefix, digits, after);
    assert sign + prefix + digits == t;
  }

  /** The size field is read exactly when it spells a number that way, as that number. */
  lemma HexValueExactly(s: seq<byte>, v: int)
    ensures HexValue(s) == Some(v) <==> exists p :: Spells(s, p, v)
  {
    hide HexValue, Spells;
    if HexValue(s) == Some(v) {
      var p := ValueSpelled(s);
    }
    forall p | Spells(s, p, v) ensures HexValue(s) == Some(v) {
      SpelledValue(s, p, v);
    }
  }

  /** Where a Python slice bound falls: negative ones count from the end. */
  function Bound(length: nat, i: int): (b: nat)
    ensures b <= length
  {
    if i < 0 then (if length + i < 0 then 0 else length + i) else if i > length then length else i
  }

  /** Python's `s[i:j]`. */
  function Slice(s: seq<byte>, i: int, j: int): (t: seq<byte>)
    ensures |t| <= |s|
  {
    var a, b := Bound(|s|, i), Bound(|s|, j);
    if a < b then s[a..b] else []
  }

  predicate NoCrlf(s: seq<byte>) {
    forall i :: 0 <= i < |s| - 1 ==> !(s[i] == CR && s[i + 1] == LF)
  }

  /** Position of the first CRLF. */
  function FindCrlf(s: seq<byte>): (r: Option<nat>)
    ensures r.Some? ==> r.value + 2 <= |s| && s[r.value] == CR && s[r.value + 1] == LF && NoCrlf(s[..r.value])
    ensures r.None? ==> NoCrlf(s)
  {
    if |s| < 2 then None
    else if s[0] == CR && s[1] == LF then Some(0)
    else
      var rest := FindCrlf(s[1..]);
      if rest.None? then None else Some(rest.value + 1)
  }

  lemma PlainSlice(s: seq<byte>, i: nat, j: nat)
    requires i <= j <= |s|
    ensures Slice(s, i, j) == s[i..j]
  {
  }

  /** The line up to a chunk extension. */
  function SizeField(line: seq<byte>): (field: seq<byte>)
    ensures field <= line && SEMICOLON !in field && (|field| == |line| || line[|field|] == SEMICOLON)
  {
    if line == [] || line[0] == SEMICOLON then [] else [line[0]] + SizeField(line[1..])
  }

  datatype Piece = Malformed | Terminal | Data(data: seq<byte>, rest: seq<byte>)

  /** The first chunk of a body. */
  function FirstChunk(body: seq<byte>): (p: Piece)
    ensures p.Data? ==> |p.rest| < |body|
  {
    var at := FindCrlf(body);
    if at.None? then Malformed
    else
      var size := HexValue(SizeField(body[..at.value]));
      var after := body[at.value + 2..];
      if size.None? then Malformed
      else if size.value == 0 then Terminal
      else if |after| < size.value + 2 || Slice(after, size.value, size.value + 2) != [CR, LF] then Malformed
      else Data(Slice(after, 0, size.value), Slice(after, size.value + 2, |after|))
  }

  function Dechunk(body: seq<byte>): Result<seq<byte>>
    decreases |body|
  {
    match FirstChunk(body)
    case Malformed => Err
    case Terminal => Ok([])
    case Data(data, rest) => Append(data, Dechunk(rest))
  }

  function Append(result: seq<byte>, rest: Result<seq<byte>>): Result<seq<byte>> {
    if rest.Err? then Err else Ok(result + rest.value)
  }

  lemma AppendMore(result: seq<byte>, data: seq<byte>, rest: Result<seq<byte>>)
    ensures Append(result, Append(data, rest)) == Append(result + data, rest)
  {
    if rest.Ok? {
      assert result + (data + rest.value) == result + data + rest.value;
    }
  }

  lemma AppendNothing(r: Result<seq<byte>>)
    ensures Append([], r) == r
  {
    if r.Ok? {
      assert [] + r.value == r.value;
    }
  }

  method DecodeChunked(body: seq<byte>) returns (r: Result<seq<byte>>)
    ensures r == Dechunk(body)
  {
    hide Dechunk, HexValue, SizeField, Slice;
    var result: seq<byte> := [];
    var left := body;
    AppendNothing(Dechunk(body));
    while left != []
      invariant Dechunk(body) == Append(result, Dechunk(left))
      decreases |left|
    {
      DecodeStep(result, left);
      var at := FindCrlf(left);
      if at.None? { return Err; }
      var size := HexValue(SizeField(left[..at.value]));
      var after := left[at.value + 2..];
      if size.None? { return Err; }
      if size.value == 0 { return Ok(result); }
      if |after| < size.value + 2 || Slice(after, size.value, size.value + 2) != [CR, LF] { return Err; }
      result := result + Slice(after, 0, size.value);
      left := Slice(after, size.value + 2, |after|);
    }
    EmptyRejected();
    r := Err;
  }

  lemma EmptyRejected()
    ensures Dechunk([]).Err?
  {
  }

  /** What one turn of the loop does to what has been decoded. */
  lemma DecodeStep(result: seq<byte>, left: seq<byte>)
    ensures Append(result, Dechunk(left)) ==
            match FirstChunk(left)
            case Malformed => Err
            case Terminal => Ok(result)
            case Data(data, rest) => Append(result + data, Dechunk(rest))
  {
    hide FirstChunk;
    match FirstChunk(left)
    case Malformed =>
    case Terminal => assert result + [] == result;
    case Data(data, rest) => AppendMore(result, data, Dechunk(rest));
  }

  /** A chunk: nonempty data and an optional extension after the size. */
  datatype Chunk = Chunk(extension: seq<byte>, data: seq<byte>)

  predicate Extension(e: seq<byte>) {
    (e != [] ==> e[0] == SEMICOLON) && forall i :: 0 <= i < |e| ==> e[i] != CR
  }

  function Digit(n: nat): byte
    requires n < 16
  {
    if n < 10 then 48 + n else 87 + n
  }

  function Hex(n: nat): (s: seq<byte>)
    ensures s != [] && forall i :: 0 <= i < |s| ==> HexDigit(s[i]).Some?
  {
    if n < 16 then [Digit(n)] else Hex(n / 16) + [Digit(n % 16)]
  }

  function SizeLine(n: nat, e: seq<byte>): seq<byte> {
    Hex(n) + e
  }

  function Encoded(c: Chunk): seq<byte> {
    SizeLine(|c.data|, c.extension) + [CR, LF] + c.data + [CR, LF]
  }

  /** The stream up to and including the line of the last, empty chunk. */
  function Chunked(cs: seq<Chunk>, last: seq<byte>): seq<byte> {
    if cs == [] then SizeLine(0, last) + [CR, LF] else Encoded(cs[0]) + Chunked(cs[1..], last)
  }

  function Contents(cs: seq<Chunk>): seq<byte> {
    if cs == [] then [] else cs[0].data + Contents(cs[1..])
  }

  lemma {:induction false} DigitsRoundTrip(n: nat)
    ensures Digits(Hex(n)) == Some(n)
  {
    if n >= 16 {
      DigitsRoundTrip(n / 16);
      assert Hex(n)[..|Hex(n)| - 1] == Hex(n / 16);
    }
  }

  lemma HexRoundTrip(n: nat)
    ensures HexValue(Hex(n)) == Some(n)
  {
    DigitsRoundTrip(n);
    var s := Hex(n);
    hide Digits, Hex;
    assert HexDigit(s[0]).Some? && HexDigit(s[|s| - 1]).Some? && (|s| > 1 ==> HexDigit(s[1]).Some?);
    assert Trim(s) == s;
  }

  lemma {:induction false} SizeFieldOf(h: seq<byte>, e: seq<byte>)
    requires Extension(e) && forall i :: 0 <= i < |h| ==> h[i] != SEMICOLON
    ensures SizeField(h + e) == h
    decreases |h|
  {
    if h != [] {
      assert (h + e)[1..] == h[1..] + e;
      SizeFieldOf(h[1..], e);
    }
  }

  lemma {:induction false} FindsFirstCrlf(line: seq<byte>, tail: seq<byte>)
    requires NoCrlf(line)
    ensures FindCrlf(line + [CR, LF] + tail) == Some(|line|)
    decreases |line|
  {
    if line != [] {
      assert (line + [CR, LF] + tail)[1..] == line[1..] + [CR, LF] + tail;
      FindsFirstCrlf(line[1..], tail);
    }
  }

  lemma SizeLineReads(n: nat, e: seq<byte>, tail: seq<byte>)
    requires Extension(e)
    ensures var body := SizeLine(n, e) + [CR, LF] + tail;
            && FindCrlf(body) == Some(|SizeLine(n, e)|)
            && HexValue(SizeField(body[..|SizeLine(n, e)|])) == Some(n)
            && body[|SizeLine(n, e)| + 2..] == tail
  {
    FindsFirstCrlf(SizeLine(n, e), tail);
    assert (SizeLine(n, e) + [CR, LF] + tail)[..|SizeLine(n, e)|] == SizeLine(n, e);
    SizeFieldOf(Hex(n), e);
    HexRoundTrip(n);
  }

  /** A body cut inside a size line is rejected. */
  lemma CutSizeLine(n: nat, e: seq<byte>, k: nat)
    requires Extension(e) && k < |SizeLine(n, e)| + 2
    ensures Dechunk((SizeLine(n, e) + [CR, LF])[..k]).Err?
  {
  }

  predicate WellFormed(cs: seq<Chunk>) {
    forall c :: c in cs ==> c.data != [] && Extension(c.extension)
  }

  lemma DechunkFirst(c: Chunk, tail: seq<byte>)
    requires c.data != [] && Extension(c.extension)
    ensures FirstChunk(Encoded(c) + tail) == Data(c.data, tail)
    ensures Dechunk(Encoded(c) + tail) == Append(c.data, Dechunk(tail))
  {
    var n, line, after := |c.data|, SizeLine(|c.data|, c.extension), c.data + [CR, LF] + tail;
    assert Encoded(c) + tail == line + [CR, LF] + after;
    hide Slice, SizeLine, HexValue, SizeField, FindCrlf, Extension, Encoded;
    SizeLineReads(n, c.extension, after);
    PlainSlice(after, n, n + 2);
    PlainSlice(after, 0, n);
    PlainSlice(after, n + 2, |after|);
    assert after[0..n] == c.data && after[n..n + 2] == [CR, LF] && after[n + 2..|after|] == tail;
  }

  lemma DechunkCut(c: Chunk, k: nat)
    requires c.data != [] && Extension(c.extension) && k < |Encoded(c)|
    ensures Dechunk(Encoded(c)[..k]).Err?
  {
    var line := SizeLine(|c.data|, c.extension);
    if k < |line| + 2 {
      CutSizeLine(|c.data|, c.extension, k);
      assert Encoded(c)[..k] == (line + [CR, LF])[..k];
    } else {
      var after := (c.data + [CR, LF])[..k - |line| - 2];
      assert Encoded(c)[..k] == line + [CR, LF] + after;
      SizeLineReads(|c.data|, c.extension, after);
    }
  }

  lemma DechunkLast(last: seq<byte>, trailer: seq<byte>)
    requires Extension(last)
    ensures Dechunk(SizeLine(0, last) + [CR, LF] + trailer) == Ok([])
  {
    hide SizeLine, HexValue, SizeField, FindCrlf, Slice, Extension;
    SizeLineReads(0, last, trailer);
  }

  /** Decoding undoes encoding, whatever follows the last chunk's line. */
  lemma {:induction false} DechunkUndoesChunked(cs: seq<Chunk>, last: seq<byte>, trailer: seq<byte>)
    requires WellFormed(cs) && Extension(last)
    ensures Dechunk(Chunked(cs, last) + trailer) == Ok(Contents(cs))
    decreases |cs|
  {
    hide Dechunk, Encoded, SizeLine, Extension;
    if cs == [] {
      DechunkLast(last, trailer);
    } else {
      assert forall c :: c in cs[1..] ==> c in cs;
      DechunkUndoesChunked(cs[1..], last, trailer);
      assert Chunked(cs, last) + trailer == Encoded(cs[0]) + (Chunked(cs[1..], last) + trailer);
      DechunkFirst(cs[0], Chunked(cs[1..], last) + trailer);
    }
  }

  /** Every stream cut before the end of the last chunk's line is rejected. */
  lemma {:induction false} CutStreamRejected(cs: seq<Chunk>, last: seq<byte>, k: nat)
    requires WellFormed(cs) && Extension(last) && k < |Chunked(cs, last)|
    ensures Dechunk(Chunked(cs, last)[..k]).Err?
    decreases |cs|
  {
    if cs == [] {
      CutSizeLine(0, last, k);
    } else if k < |Encoded(cs[0])| {
      DechunkCut(cs[0], k);
      assert Chunked(cs, last)[..k] == Encoded(cs[0])[..k];
    } else {
      var rest := Chunked(cs[1..], last)[..k - |Encoded(cs[0])|];
      CutStreamRejected(cs[1..], last, k - |Encoded(cs[0])|);
      assert Chunked(cs, last)[..k] == Encoded(cs[0]) + rest;
      DechunkFirst(cs[0], rest);
    }
  }

  // ----- exactly what is accepted

  /** What a size line may say of the data after it: its length, or, negative,
      how much of the body does not belong to it. */
  predicate Declares(line: seq<byte>, data: seq<byte>, rest: seq<byte>) {
    var size := HexValue(SizeField(line));
    (size == Some(|data|) && data != []) || (size == Some(-2 - |rest|) && rest != [])
  }

  function Framed(line: seq<byte>, data: seq<byte>, rest: seq<byte>): seq<byte> {
    line + [CR, LF] + (data + [CR, LF] + rest)
  }

  lemma ChunkJoins(line: seq<byte>, data: seq<byte>, rest: seq<byte>)
    requires NoCrlf(line) && Declares(line, data, rest)
    ensures FirstChunk(Framed(line, data, rest)) == Data(data, rest)
  {
    var body, after := Framed(line, data, rest), data + [CR, LF] + rest;
    FindsFirstCrlf(line, after);
    assert body[..|line|] == line && body[|line| + 2..] == after;
    hide FindCrlf, HexValue, SizeField, NoCrlf, Slice;
    SlicesJoin(data, rest, HexValue(SizeField(line)).value);
  }

  lemma SlicesJoin(data: seq<byte>, rest: seq<byte>, size: int)
    requires size == |data| || (size == -2 - |rest| && rest != [])
    ensures var after := data + [CR, LF] + rest;
            && Slice(after, size, size + 2) == [CR, LF]
            && (data != [] || size < 0 ==> Slice(after, 0, size) == data) && Slice(after, size + 2, |after|) == rest
  {
    var after, n := data + [CR, LF] + rest, |data|;
    assert after[0..n] == data && after[n..n + 2] == [CR, LF] && after[n + 2..|after|] == rest;
  }

  lemma ChunkSplits(body: seq<byte>) returns (line: seq<byte>)
    requires FirstChunk(body).Data?
    ensures var p := FirstChunk(body);
            NoCrlf(line) && Declares(line, p.data, p.rest) && body == Framed(line, p.data, p.rest)
  {
    var p := FirstChunk(body);
    hide FindCrlf, HexValue, SizeField, NoCrlf, Slice;
    var at := FindCrlf(body).value;
    line := body[..at];
    var after := body[at + 2..];
    assert body == line + [CR, LF] + after;
    var size := HexValue(SizeField(line)).value;
    SliceSplits(after, size);
    hide FirstChunk;
    assert after == p.data + [CR, LF] + p.rest;
  }

  /** A CRLF found by the two-sided slice stands between what is before and after it. */
  lemma SliceSplits(s: seq<byte>, size: int)
    requires size != 0 && |s| >= size + 2 && Slice(s, size, size + 2) == [CR, LF]
    ensures var data, rest := Slice(s, 0, size), Slice(s, size + 2, |s|);
            s == data + [CR, LF] + rest && if size > 0 then |data| == size else rest != [] && size == -2 - |rest|
  {
    var a, b := Bound(|s|, size), Bound(|s|, size + 2);
    assert s[a..b] == [CR, LF];
    assert s == s[0..a] + s[a..b] + s[b..|s|];
  }

  /** A body in its parts: framed chunks, the line that ends them, and what follows it. */
  datatype Part = Part(line: seq<byte>, data: seq<byte>)

  function Stream(parts: seq<Part>, last: seq<byte>, trailer: seq<byte>): seq<byte> {
    if parts == [] then last + [CR, LF] + trailer
    else Framed(parts[0].line, parts[0].data, Stream(parts[1..], last, trailer))
  }

  function Text(parts: seq<Part>): seq<byte> {
    if parts == [] then [] else parts[0].data + Text(parts[1..])
  }

  predicate Declared(parts: seq<Part>, last: seq<byte>, trailer: seq<byte>) {
    if parts == [] then NoCrlf(last) && HexValue(SizeField(last)) == Some(0)
    else
      && NoCrlf(parts[0].line) && Declares(parts[0].line, parts[0].data, Stream(parts[1..], last, trailer))
      && Declared(parts[1..], last, trailer)
  }

  lemma TerminalExactly(last: seq<byte>, trailer: seq<byte>)
    requires NoCrlf(last) && HexValue(SizeField(last)) == Some(0)
    ensures FirstChunk(last + [CR, LF] + trailer).Terminal?
  {
    var body := last + [CR, LF] + trailer;
    FindsFirstCrlf(last, trailer);
    assert body[..|last|] == last;
    hide FindCrlf, HexValue, SizeField;
  }

  lemma TerminalSplits(body: seq<byte>) returns (last: seq<byte>, trailer: seq<byte>)
    requires FirstChunk(body).Terminal?
    ensures NoCrlf(last) && HexValue(SizeField(last)) == Some(0) && body == last + [CR, LF] + trailer
  {
    hide HexValue, SizeField;
    var at := FindCrlf(body).value;
    last, trailer := body[..at], body[at + 2..];
  }

  lemma {:induction false} StreamAccepted(parts: seq<Part>, last: seq<byte>, trailer: seq<byte>)
    requires Declared(parts, last, trailer)
    ensures Dechunk(Stream(parts, last, trailer)) == Ok(Text(parts))
    decreases |parts|
  {
    hide FirstChunk, HexValue, SizeField;
    if parts == [] {
      TerminalExactly(last, trailer);
    } else {
      StreamAccepted(parts[1..], last, trailer);
      ChunkJoins(parts[0].line, parts[0].data, Stream(parts[1..], last, trailer));
    }
  }

  lemma {:induction false} AcceptedIsStream(body: seq<byte>) returns (parts: seq<Part>, last: seq<byte>, trailer: seq<byte>)
    requires Dechunk(body).Ok?
    ensures Declared(parts, last, trailer) && Stream(parts, last, trailer) == body && Dechunk(body) == Ok(Text(parts))
    decreases |body|
  {
    hide HexValue, SizeField, FirstChunk;
    var p := FirstChunk(body);
    if p.Terminal? {
      parts := [];
      last, trailer := TerminalSplits(body);
    } else {
      var line := ChunkSplits(body);
      hide Declares;
      var tail;
      tail, last, trailer := AcceptedIsStream(p.rest);
      parts := [Part(line, p.data)] + tail;
      assert parts[1..] == tail;
    }
  }

  ghost predicate Reads(body: seq<byte>, r: seq<byte>, parts: seq<Part>, last: seq<byte>, trailer: seq<byte>) {
    Declared(parts, last, trailer) && Stream(parts, last, trailer) == body && Text(parts) == r
  }

  /** Exactly the bodies framed throughout are accepted, each size line giving
      the length of its data or a negative number for what follows it, up to a
      line of size zero; the decoded bytes are the data. */
  lemma DechunkAcceptsExactly(body: seq<byte>, r: seq<byte>)
    ensures Dechunk(body) == Ok(r) <==> exists parts, last, trailer :: Reads(body, r, parts, last, trailer)
  {
    hide Declared;
    if Dechunk(body) == Ok(r) {
      var parts, last, trailer := AcceptedIsStream(body);
      assert Reads(body, r, parts, last, trailer);
    }
    forall parts, last, trailer | Reads(body, r, parts, last, trailer) ensures Dechunk(body) == Ok(r) {
      StreamAccepted(parts, last, trailer);
    }
  }

  /** The decoder takes a negative size, which section 7.1 of RFC 9112 does not have. */
  lemma NegativeSizeAccepted(data: seq<byte>)
    ensures Dechunk([MINUS, 53, CR, LF] + data + [CR, LF, 48, CR, LF]) == Ok(data)
  {
    var line, rest := [MINUS, 53], [48, CR, LF];
    assert Framed(line, data, rest) == [MINUS, 53, CR, LF] + data + [CR, LF, 48, CR, LF];
    MinusFive();
    hide HexValue, SizeField, FirstChunk, Framed;
    ChunkJoins(line, data, rest);
    assert data + [] == data;
  }

  lemma MinusFive()
    ensures HexValue(SizeField([MINUS, 53])) == Some(-5) && FirstChunk([48, CR, LF]).Terminal?
  {
    var line: seq<byte> := [MINUS, 53];
    assert line[1..] == [53] && SizeField([53]) == [53];
    assert Hex(0) == [48] && Hex(5) == [53];
    DigitsRoundTrip(5);
    SizeLineReads(0, [], []);
    assert [48, CR, LF] == SizeLine(0, []) + [CR, LF] + [];
  }
}
