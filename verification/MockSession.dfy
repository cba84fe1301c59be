/** One client session of the mock exchange: records built from rotating symbols, and the
    steady-rate pacing between them. */
module MockSession {
  import opened Bytes
  import opened Options
  import opened WsFrame
  import opened WsCodec
  import WsStream
  import WsScript
  import MockServer
  import MockTotals
  import RoundRobin

  type Totals = MockTotals.Totals

  /** The payload generator, arbitrary in symbol and sequence number. */
  type Ticker = (string, nat) -> seq<byte>

  function SymbolAt(symbols: seq<string>, k: nat): (symbol: string)
    requires symbols != []
  {
    symbols[k % |symbols|]
  }

  /** Message `k` of the session. */
  function MessageAt(symbols: seq<string>, ticker: Ticker, k: nat): (p: seq<byte>)
    requires symbols != []
  {
    ticker(SymbolAt(symbols, k), k)
  }

  function Messages(symbols: seq<string>, ticker: Ticker, first: nat, count: nat): (ps: seq<seq<byte>>)
    requires symbols != []
    ensures |ps| == count
    ensures forall k | 0 <= k < count :: ps[k] == ticker(symbols[(first + k) % |symbols|], first + k)
  {
    if count == 0 then []
    else Messages(symbols, ticker, first, count - 1) + [MessageAt(symbols, ticker, first + count - 1)]
  }

  function Encoded(ps: seq<seq<byte>>): (b: seq<byte>) {
    if ps == [] then [] else Encoded(ps[..|ps| - 1]) + MockServer.Encode(ps[|ps| - 1])
  }

  function Total(batches: seq<nat>): (n: nat) {
    if batches == [] then 0 else Total(batches[..|batches| - 1]) + batches[|batches| - 1]
  }

  lemma EncodedFirst(symbols: seq<string>, ticker: Ticker, first: nat)
    requires symbols != []
    ensures Encoded(Messages(symbols, ticker, first, 0)) == []
  {}

  lemma EncodedNext(symbols: seq<string>, ticker: Ticker, first: nat, i: nat)
    requires symbols != []
    ensures Encoded(Messages(symbols, ticker, first, i + 1))
         == Encoded(Messages(symbols, ticker, first, i)) + MockServer.Encode(MessageAt(symbols, ticker, first + i))
  {
    hide MockServer.Encode;
    var ps := Messages(symbols, ticker, first, i + 1);
    assert ps[..i] == Messages(symbols, ticker, first, i);
  }

  /** One record: `batch` frames concatenated, both rotating counters advanced by as much. */
  method BuildRecord(symbols: seq<string>, ticker: Ticker, symIdx: nat, sequence: nat, batch: nat)
    returns (buf: seq<byte>, symIdx': nat, sequence': nat)
    requires symbols != [] && symIdx == sequence
    ensures symIdx' == sequence' == sequence + batch
    ensures buf == Encoded(Messages(symbols, ticker, sequence, batch))
  {
    hide Encoded, Messages, MockServer.Encode;
    buf, symIdx', sequence' := [], symIdx, sequence;
    EncodedFirst(symbols, ticker, sequence);
    for i := 0 to batch
      invariant symIdx' == sequence' == sequence + i
      invariant buf == Encoded(Messages(symbols, ticker, sequence, i))
    {
      var payload := ticker(symbols[symIdx' % |symbols|], sequence');
      EncodedNext(symbols, ticker, sequence, i);
      buf := buf + MockServer.Encode(payload);
      symIdx', sequence' := symIdx' + 1, sequence' + 1;
    }
  }

  /** The records of a session, one per batch size; together they carry messages 0, 1, 2, ...
      each exactly once. */
  function Records(symbols: seq<string>, ticker: Ticker, batches: seq<nat>): (rs: seq<seq<byte>>)
    requires symbols != []
    ensures |rs| == |batches|
  {
    if batches == [] then []
    else
      var init, last := batches[..|batches| - 1], batches[|batches| - 1];
      Records(symbols, ticker, init) + [Encoded(Messages(symbols, ticker, Total(init), last))]
  }

  lemma {:induction false} RecordAt(symbols: seq<string>, ticker: Ticker, batches: seq<nat>, r: nat)
    requires symbols != [] && r < |batches|
    ensures Records(symbols, ticker, batches)[r]
         == Encoded(Messages(symbols, ticker, Total(batches[..r]), batches[r]))
  {
    hide Encoded, Messages;
    var init := batches[..|batches| - 1];
    if r < |init| {
      RecordAt(symbols, ticker, init, r);
      assert init[..r] == batches[..r];
    }
  }

  function Size(records: seq<seq<byte>>): (n: nat) {
    if records == [] then 0 else Size(records[..|records| - 1]) + |records[|records| - 1]|
  }

  function SessionTotals(symbols: seq<string>, ticker: Ticker, batches: seq<nat>): (t: Totals)
    requires symbols != []
  {
    MockTotals.Totals(Total(batches), Size(Records(symbols, ticker, batches)), |batches|)
  }

  lemma NextRecord(symbols: seq<string>, ticker: Ticker, batches: seq<nat>, r: nat)
    requires symbols != [] && r < |batches|
    ensures Total(batches[..r + 1]) == Total(batches[..r]) + batches[r]
    ensures Records(symbols, ticker, batches[..r + 1])
         == Records(symbols, ticker, batches[..r])
            + [Encoded(Messages(symbols, ticker, Total(batches[..r]), batches[r]))]
  {
    hide Encoded, Messages;
    assert batches[..r + 1][..r] == batches[..r];
  }

  lemma SizeNext(records: seq<seq<byte>>, b: seq<byte>)
    ensures Size(records + [b]) == Size(records) + |b|
  {
    assert (records + [b])[..|records|] == records;
  }

  /** A session that sends one record per batch size. At every record boundary the rotating
      counters and the message total agree. */
  method RunSession(symbols: seq<string>, ticker: Ticker, batches: seq<nat>)
    returns (records: seq<seq<byte>>, totals: Totals)
    requires symbols != []
    ensures records == Records(symbols, ticker, batches)
    ensures totals == SessionTotals(symbols, ticker, batches)
    ensures totals.msgs == Total(batches) && totals.bytes == |Concat(records)| && totals.records == |records|
  {
    hide Encoded, Messages, Records, Total, Size;
    records := [];
    var totalMsgs, totalBytes, totalRecords, sequence, symIdx := 0, 0, 0, 0, 0;
    NoRecords(symbols, ticker, batches[..0]);
    while totalRecords < |batches|
      invariant totalRecords <= |batches|
      invariant sequence == symIdx == totalMsgs == Total(batches[..totalRecords])
      invariant records == Records(symbols, ticker, batches[..totalRecords])
      invariant totalBytes == Size(records)
    {
      var batch := batches[totalRecords];
      var buf;
      buf, symIdx, sequence := BuildRecord(symbols, ticker, symIdx, sequence, batch);
      NextRecord(symbols, ticker, batches, totalRecords);
      SizeNext(records, buf);
      records := records + [buf];
      totalMsgs, totalBytes, totalRecords := totalMsgs + batch, totalBytes + |buf|, totalRecords + 1;
    }
    assert batches[..totalRecords] == batches;
    totals := MockTotals.Totals(totalMsgs, totalBytes, totalRecords);
    SizeOfAll(records);
  }

  lemma {:induction false} SizeOfAll(records: seq<seq<byte>>)
    ensures Size(records) == |Concat(records)|
  {
    if records != [] {
      var init, last := records[..|records| - 1], records[|records| - 1];
      SizeOfAll(init);
      assert records == init + [last];
      ConcatAppend(init, [last]);
      assert [last][1..] == [] && Concat([last]) == last + [] == last;
    }
  }

  lemma NoRecords(symbols: seq<string>, ticker: Ticker, batches: seq<nat>)
    requires symbols != [] && batches == []
    ensures Records(symbols, ticker, batches) == [] && Total(batches) == 0 && Size([]) == 0
  {}

  lemma {:induction false} EncodedAppend(a: seq<seq<byte>>, b: seq<seq<byte>>)
    ensures Encoded(a + b) == Encoded(a) + Encoded(b)
  {
    hide MockServer.Encode;
    if b == [] {
      assert a + b == a;
    } else {
      var init := b[..|b| - 1];
      assert (a + b)[..|a + b| - 1] == a + init;
      EncodedAppend(a, init);
    }
  }

  lemma {:induction false} MessagesJoin(symbols: seq<string>, ticker: Ticker, first: nat, m: nat, n: nat)
    requires symbols != []
    ensures Messages(symbols, ticker, first, m + n)
         == Messages(symbols, ticker, first, m) + Messages(symbols, ticker, first + m, n)
  {
    hide MessageAt;
    if n == 0 {
      assert Messages(symbols, ticker, first + m, 0) == [];
    } else {
      MessagesJoin(symbols, ticker, first, m, n - 1);
      assert m + n - 1 == m + (n - 1) && first + (m + n) - 1 == first + m + n - 1;
    }
  }

  /** The records of a session, one after the other, are messages 0, 1, 2, ... up to its total,
      each encoded exactly once and in order. */
  lemma {:induction false} SessionBytes(symbols: seq<string>, ticker: Ticker, batches: seq<nat>)
    requires symbols != []
    ensures Concat(Records(symbols, ticker, batches)) == Encoded(Messages(symbols, ticker, 0, Total(batches)))
  {
    hide Messages, Encoded;
    if batches == [] {
      EncodedFirst(symbols, ticker, 0);
    } else {
      var init, last := batches[..|batches| - 1], batches[|batches| - 1];
      var rs, r := Records(symbols, ticker, init), Encoded(Messages(symbols, ticker, Total(init), last));
      SessionBytes(symbols, ticker, init);
      ConcatAppend(rs, [r]);
      assert [r][1..] == [] && Concat([r]) == r + [] == r;
      MessagesJoin(symbols, ticker, 0, Total(init), last);
      EncodedAppend(Messages(symbols, ticker, 0, Total(init)), Messages(symbols, ticker, Total(init), last));
    }
  }

  // -------------------------------------------------------- the accept loop

  /** A connection whose TLS handshake or upgrade fails, or a session with its batch sizes. */
  datatype Connection = Refused | Served(batches: seq<nat>)

  function ReportOf(symbols: seq<string>, ticker: Ticker, c: Connection): (r: MockTotals.Report)
    requires symbols != []
  {
    if c.Served? then Some(SessionTotals(symbols, ticker, c.batches)) else None
  }

  function Reports(symbols: seq<string>, ticker: Ticker, conns: seq<Connection>): (rs: seq<MockTotals.Report>)
    requires symbols != []
  {
    if conns == [] then []
    else Reports(symbols, ticker, conns[..|conns| - 1]) + [ReportOf(symbols, ticker, conns[|conns| - 1])]
  }

  lemma NextConnection(symbols: seq<string>, ticker: Ticker, conns: seq<Connection>, i: nat)
    requires symbols != [] && i < |conns|
    ensures Reports(symbols, ticker, conns[..i + 1])
         == Reports(symbols, ticker, conns[..i]) + [ReportOf(symbols, ticker, conns[i])]
  {
    hide ReportOf;
    assert conns[..i + 1][..i] == conns[..i];
  }

  lemma NoConnections(symbols: seq<string>, ticker: Ticker, conns: seq<Connection>)
    requires symbols != [] && conns == []
    ensures MockTotals.Grand(Reports(symbols, ticker, conns)) == MockTotals.ZERO
  {
    MockTotals.GrandOfNone(Reports(symbols, ticker, conns));
  }

  /** The accept loop. Every connection adds the session totals in scope when it ends; a refused
      one never reset them, and a first connection that is refused finds none and stops the
      server with an error. */
  method RunServer(symbols: seq<string>, ticker: Ticker, conns: seq<Connection>)
    returns (grand: Totals, crashed: bool)
    requires symbols != []
    ensures crashed <==> conns != [] && conns[0].Refused?
    ensures !crashed ==> grand == MockTotals.Grand(Reports(symbols, ticker, conns))
  {
    hide SessionTotals, Reports, MockTotals.Grand, MockTotals.InScope, MockTotals.Plus;
    grand, crashed := MockTotals.ZERO, false;
    var scope: Option<Totals> := None;
    NoConnections(symbols, ticker, conns[..0]);
    for i := 0 to |conns|
      invariant scope.None? <==> i == 0
      invariant i > 0 ==> conns[0].Served?
      invariant scope.Some? ==> scope.value == MockTotals.InScope(Reports(symbols, ticker, conns[..i]))
      invariant grand == MockTotals.Grand(Reports(symbols, ticker, conns[..i]))
    {
      NextConnection(symbols, ticker, conns, i);
      MockTotals.NextReport(Reports(symbols, ticker, conns[..i]), ReportOf(symbols, ticker, conns[i]));
      if conns[i].Served? {
        var records, totals := RunSession(symbols, ticker, conns[i].batches);
        scope := Some(totals);
      }
      if scope.None? {
        return grand, true;
      }
      grand := MockTotals.Plus(grand, scope.value);
    }
    assert conns[..|conns|] == conns;
  }

  // -------------------------------------------------------- records are lossless

  function AsMessage(p: seq<byte>): (m: WsScript.Message) {
    WsScript.Message(TEXT, [WsScript.Fragment(p, None, [])])
  }

  function AsMessages(ps: seq<seq<byte>>): (ms: seq<WsScript.Message>)
    ensures |ms| == |ps| && forall i | 0 <= i < |ps| :: ms[i] == AsMessage(ps[i])
  {
    if ps == [] then [] else AsMessages(ps[..|ps| - 1]) + [AsMessage(ps[|ps| - 1])]
  }

  lemma {:induction false} RecordIsScript(ps: seq<seq<byte>>)
    ensures Encoded(ps) == WsScript.FrameBytes(WsScript.MessageFrames(AsMessages(ps)))
  {
    hide Wire;
    if ps != [] {
      var init, p := ps[..|ps| - 1], ps[|ps| - 1];
      RecordIsScript(init);
      MessageFramesSnoc(AsMessages(init), AsMessage(p));
      MockServer.EncodeIsWire(p);
      var f := WsScript.FrameSpec(TEXT, true, p, None);
      WsScript.OneFrame(f);
      OneFragment(p);
      WsScript.FrameBytesAppend(WsScript.MessageFrames(AsMessages(init)), [f]);
    }
  }

  lemma OneFragment(p: seq<byte>)
    ensures WsScript.FragmentFrames(TEXT, AsMessage(p).fragments) == [WsScript.FrameSpec(TEXT, true, p, None)]
    ensures WsScript.Payload(AsMessage(p).fragments) == p
  {
    var fs := AsMessage(p).fragments;
    assert fs[1..] == [];
    assert WsScript.Payload(fs) == p + WsScript.Payload([]) == p;
  }

  lemma {:induction false} MessageFramesSnoc(ms: seq<WsScript.Message>, m: WsScript.Message)
    ensures WsScript.MessageFrames(ms + [m]) ==
            WsScript.MessageFrames(ms) + WsScript.FragmentFrames(m.opcode, m.fragments)
    ensures WsScript.Expected(ms + [m]) == WsScript.Expected(ms) + WsScript.NonEmpty(WsScript.Payload(m.fragments))
  {
    if ms == [] {
      assert [] + [m] == [m] && [m][1..] == [];
    } else {
      assert (ms + [m])[1..] == ms[1..] + [m];
      MessageFramesSnoc(ms[1..], m);
    }
  }

  lemma {:induction false} ExpectedOf(ps: seq<seq<byte>>)
    requires forall i | 0 <= i < |ps| :: ps[i] != []
    ensures WsScript.Expected(AsMessages(ps)) == ps
  {
    if ps != [] {
      var init, p := ps[..|ps| - 1], ps[|ps| - 1];
      ExpectedOf(init);
      MessageFramesSnoc(AsMessages(init), AsMessage(p));
      OneFragment(p);
      assert ps == init + [p];
    }
  }

  lemma {:induction false} NoPings(cfg: Config, ms: seq<WsScript.Message>)
    requires forall i | 0 <= i < |ms| :: |ms[i].fragments| == 1 && ms[i].fragments[0].after == []
    ensures WsScript.Pings(cfg, ms) == []
  {
    if ms != [] {
      NoPings(cfg, ms[1..]);
      var fs := ms[0].fragments;
      assert fs[1..] == [];
      assert WsScript.PingsOf(cfg, fs) == WsScript.PingsIn(cfg, []) + WsScript.PingsOf(cfg, []) == [];
    }
  }

  /** What the client delivers from one record is the record's messages, all of them, in order. */
  lemma RecordLossless(cfg: Config, keys: WsStream.Keys, s: WsStream.Stream, ps: seq<seq<byte>>)
    requires s.closed.None? && s.buf == [] && s.codec.fragOpcode == 0
    requires cfg.maxMessageSize <= MAX_PAYLOAD
    requires forall i | 0 <= i < |ps| :: 0 < |ps[i]| <= cfg.maxMessageSize
    ensures var t := WsStream.Drain(cfg, keys, s.(buf := Encoded(ps)));
            t.closed.None? && t.buf == [] && t.delivered == s.delivered + ps && t.sent == s.sent
  {
    hide WsStream.Drain, WsScript.FrameBytes, Encoded, WsScript.LegalScript;
    var sc := ScriptOf(ps);
    ScriptIs(cfg, ps);
    WsScript.NothingDecodes();
    WsScript.Reassembly(cfg, keys, s, sc, []);
    NoReplies(cfg, keys, s.keysUsed);
    assert Encoded(ps) + [] == Encoded(ps);
    assert s.sent + [] + [] == s.sent;
  }

  function ScriptOf(ps: seq<seq<byte>>): (sc: WsScript.Script) {
    WsScript.Script([], AsMessages(ps), None)
  }

  lemma NoReplies(cfg: Config, keys: WsStream.Keys, n: nat)
    ensures WsScript.Pongs([], keys, n) == [] && WsScript.Acks(cfg, None, keys, n) == []
  {}

  /** Payloads within the size limit, as a script the receiver must accept whole. */
  lemma ScriptIs(cfg: Config, ps: seq<seq<byte>>)
    requires cfg.maxMessageSize <= MAX_PAYLOAD
    requires forall i | 0 <= i < |ps| :: 0 < |ps[i]| <= cfg.maxMessageSize
    ensures var sc := ScriptOf(ps);
            && WsScript.LegalScript(cfg, sc) && WsScript.Expected(sc.messages) == ps
            && WsScript.ScriptPings(cfg, sc) == []
            && WsScript.FrameBytes(WsScript.ScriptFrames(sc)) == Encoded(ps)
            && WsScript.ScriptFrames(sc) == WsScript.MessageFrames(AsMessages(ps))
  {
    hide WsScript.FrameBytes, Encoded, AsMessages, WsScript.LegalMessage, WsScript.MessageFrames, WsScript.Expected,
         WsScript.Pings;
    var ms := AsMessages(ps);
    RecordIsScript(ps);
    ExpectedOf(ps);
    NoPings(cfg, ms);
    forall i | 0 <= i < |ms|
      ensures WsScript.LegalMessage(cfg, ms[i])
    {
      MessageLegal(cfg, ps[i]);
    }
    NoControls(cfg);
    var fs := WsScript.MessageFrames(ms);
    assert [] + fs + [] == fs;
    assert [] + WsScript.Pings(cfg, ms) == [];
  }

  lemma NoControls(cfg: Config)
    ensures WsScript.ControlFrames([]) == [] && WsScript.CloseFrames(None) == [] && WsScript.PingsIn(cfg, []) == []
  {}

  lemma MessageLegal(cfg: Config, p: seq<byte>)
    requires |p| <= cfg.maxMessageSize <= MAX_PAYLOAD
    ensures WsScript.LegalMessage(cfg, AsMessage(p))
  {
    hide WsScript.Payload;
    OneFragment(p);
  }

  lemma {:induction false} FramesAre(ps: seq<seq<byte>>, i: nat)
    requires i < |ps|
    ensures var fs := WsScript.MessageFrames(AsMessages(ps));
            |fs| == |ps| && fs[i] == WsScript.FrameSpec(TEXT, true, ps[i], None)
  {
    var init, p := ps[..|ps| - 1], ps[|ps| - 1];
    MessageFramesSnoc(AsMessages(init), AsMessage(p));
    OneFragment(p);
    if init == [] {
      assert WsScript.MessageFrames(AsMessages(init)) == [];
    } else {
      FramesAre(init, if i < |init| then i else 0);
    }
  }

  /** A whole session, however the network cuts its octets: the client delivers messages 0, 1, 2,
      ... up to the session's total, each once, in order, sends nothing and stays open. */
  lemma SessionLossless(cfg: Config, keys: WsStream.Keys, cap: nat, symbols: seq<string>, ticker: Ticker,
                        batches: seq<nat>, chunks: seq<seq<byte>>)
    requires symbols != [] && cap > 0 && cfg.maxMessageSize <= MAX_PAYLOAD
    requires forall i | 0 <= i < Total(batches) ::
               var p := Messages(symbols, ticker, 0, Total(batches))[i];
               0 < |p| <= cfg.maxMessageSize && |MockServer.Encode(p)| <= cap
    requires Concat(chunks) == Concat(Records(symbols, ticker, batches))
    requires WsStream.RecvRespectsSpace(cfg, keys, cap, WsStream.Fresh, chunks)
    ensures var t := WsStream.Run(cfg, keys, cap, WsStream.Fresh, chunks);
            && t.closed.None? && t.buf == [] && t.sent == []
            && t.delivered == Messages(symbols, ticker, 0, Total(batches))
  {
    hide WsStream.Run, WsStream.RecvRespectsSpace, WsScript.FrameBytes, Encoded, Messages, Records,
         WsScript.LegalScript, MockServer.Encode, WsScript.ScriptFrames, WsScript.ScriptPings, WsScript.Expected;
    var ps := Messages(symbols, ticker, 0, Total(batches));
    SessionBytes(symbols, ticker, batches);
    ScriptIs(cfg, ps);
    var sc := ScriptOf(ps);
    var fs := WsScript.ScriptFrames(sc);
    forall i | 0 <= i < |fs|
      ensures |Wire(fs[i].opcode, fs[i].fin, fs[i].payload, fs[i].mask)| <= cap
    {
      FrameFits(ps, i, cap);
    }
    WsScript.NothingDecodes();
    assert Encoded(ps) + [] == Encoded(ps);
    WsScript.EndToEnd(cfg, keys, cap, sc, [], chunks);
    NoReplies(cfg, keys, 0);
  }

  lemma FrameFits(ps: seq<seq<byte>>, i: nat, cap: nat)
    requires forall j | 0 <= j < |ps| :: |MockServer.Encode(ps[j])| <= cap
    requires i < |WsScript.MessageFrames(AsMessages(ps))|
    ensures var f := WsScript.MessageFrames(AsMessages(ps))[i]; |Wire(f.opcode, f.fin, f.payload, f.mask)| <= cap
  {
    hide Wire, MockServer.Encode;
    if ps == [] {
      assert false;
    }
    FramesAre(ps, if i < |ps| then i else 0);
    MockServer.EncodeIsWire(ps[i]);
  }

  // -------------------------------------------------------- fairness

  /** How many of the payloads carry `symbol`, as `symbolOf` reads it from them. */
  function Carrying(ps: seq<seq<byte>>, symbolOf: seq<byte> -> string, symbol: string): (n: nat) {
    if ps == [] then 0
    else Carrying(ps[..|ps| - 1], symbolOf, symbol) + RoundRobin.One(symbolOf(ps[|ps| - 1]) == symbol)
  }

  predicate Distinct(symbols: seq<string>) {
    forall i, j | 0 <= i < j < |symbols| :: symbols[i] != symbols[j]
  }

  lemma {:induction false} CarryingIsCount(symbols: seq<string>, ticker: Ticker, symbolOf: seq<byte> -> string,
                                           total: nat, a: nat)
    requires Distinct(symbols) && a < |symbols|
    requires forall s, k :: symbolOf(ticker(s, k)) == s
    ensures Carrying(Messages(symbols, ticker, 0, total), symbolOf, symbols[a])
         == RoundRobin.Count(0, total, |symbols|, a)
  {
    if total > 0 {
      CarryingIsCount(symbols, ticker, symbolOf, total - 1, a);
      var ps := Messages(symbols, ticker, 0, total);
      assert ps[..|ps| - 1] == Messages(symbols, ticker, 0, total - 1);
      assert ps[|ps| - 1] == MessageAt(symbols, ticker, total - 1);
      assert symbolOf(ps[|ps| - 1]) == symbols[(total - 1) % |symbols|];
    }
  }

  /** Among the messages of a session no two symbols are sent more than once apart. */
  lemma SymbolsEven(symbols: seq<string>, ticker: Ticker, symbolOf: seq<byte> -> string, batches: seq<nat>,
                    a: nat, b: nat)
    requires Distinct(symbols) && a < |symbols| && b < |symbols|
    requires forall s, k :: symbolOf(ticker(s, k)) == s
    ensures var ps := Messages(symbols, ticker, 0, Total(batches));
            Carrying(ps, symbolOf, symbols[a]) <= Carrying(ps, symbolOf, symbols[b]) + 1
  {
    var total, n := Total(batches), |symbols|;
    CarryingIsCount(symbols, ticker, symbolOf, total, a);
    CarryingIsCount(symbols, ticker, symbolOf, total, b);
    RoundRobin.Fair(0, total, n, a);
    RoundRobin.Fair(0, total, n, b);
  }
}
