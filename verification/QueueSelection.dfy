/** Choosing source ports per receive queue from observed replies: the one-pass bounded
    selection of the DPDK probe, and the group-then-truncate of the kernel probe. */
module QueueSelection {
  import opened Basics
  import opened Options

  const PORTS: nat := 0x1_0000

  /** A received packet, as far as the probe looks at it. */
  datatype Packet = Packet(ipv4: bool, udp: bool, fromServer: bool, srcPort: nat, dstPort: nat, seen: Obs)

  /** What is kept of a reply: its hash, whether the card computed one, and the queue it arrived on. */
  datatype Obs = Obs(hash: nat, flag: bool, queue: nat)

  predicate Reply(p: Packet, dnsPort: nat) {
    p.ipv4 && p.udp && p.fromServer && p.srcPort == dnsPort
  }

  /** What the last reply to `port` showed. */
  function LastReply(trace: seq<Packet>, dnsPort: nat, port: nat): (o: Option<Obs>) {
    if trace == [] then None
    else
      var p := trace[|trace| - 1];
      if Reply(p, dnsPort) && p.dstPort == port then Some(p.seen)
      else LastReply(trace[..|trace| - 1], dnsPort, port)
  }

  /** The observation table: each reply overwrites the entry of its destination port. */
  method Observe(trace: seq<Packet>, dnsPort: nat) returns (obs: array<Option<Obs>>)
    requires forall i | 0 <= i < |trace| :: trace[i].dstPort < PORTS
    ensures fresh(obs) && obs.Length == PORTS
    ensures forall p | 0 <= p < PORTS :: obs[p] == LastReply(trace, dnsPort, p)
  {
    obs := new Option<Obs>[PORTS](_ => None);
    for i := 0 to |trace|
      invariant forall p | 0 <= p < PORTS :: obs[p] == LastReply(trace[..i], dnsPort, p)
    {
      assert trace[..i + 1][..i] == trace[..i];
      if Reply(trace[i], dnsPort) {
        obs[trace[i].dstPort] := Some(trace[i].seen);
      }
    }
    assert trace[..|trace|] == trace;
  }

  /** The packet is an answer of the server's to `port`: IPv4, UDP, from its address and its port. */
  predicate Answers(p: Packet, dnsPort: nat, port: nat) {
    p.ipv4 && p.udp && p.fromServer && p.srcPort == dnsPort && p.dstPort == port
  }

  /** What is observed of a port is what its latest answer showed, and nothing if it had none. */
  lemma {:induction false} ObservedIsLatest(trace: seq<Packet>, dnsPort: nat, port: nat)
    ensures var o := LastReply(trace, dnsPort, port);
            && (o.None? ==> forall i | 0 <= i < |trace| :: !Answers(trace[i], dnsPort, port))
            && (o.Some? ==>
                exists i | 0 <= i < |trace| ::
                  && Answers(trace[i], dnsPort, port) && trace[i].seen == o.value
                  && forall j | i < j < |trace| :: !Answers(trace[j], dnsPort, port))
  {
    if trace != [] {
      var n := |trace| - 1;
      if Answers(trace[n], dnsPort, port) {
        assert LastReply(trace, dnsPort, port) == Some(trace[n].seen);
      } else {
        ObservedIsLatest(trace[..n], dnsPort, port);
        if LastReply(trace, dnsPort, port).Some? {
          var i :| 0 <= i < n && Answers(trace[..n][i], dnsPort, port)
                   && trace[..n][i].seen == LastReply(trace, dnsPort, port).value
                   && forall j | i < j < n :: !Answers(trace[..n][j], dnsPort, port);
          assert Answers(trace[i], dnsPort, port);
          assert forall j | i < j < n :: trace[..n][j] == trace[j];
        } else {
          assert forall i | 0 <= i < n :: trace[..n][i] == trace[i];
        }
      }
    }
  }

  /** The ports `lo..hi`, both ends included. */
  function Scan(lo: nat, hi: nat): (s: seq<nat>)
    ensures |s| == if lo <= hi then hi - lo + 1 else 0
    ensures forall i | 0 <= i < |s| :: s[i] == lo + i
    decreases hi + 1 - lo
  {
    if lo <= hi then [lo] + Scan(lo + 1, hi) else []
  }

  /** The candidate loop. Its counter is wider than a port, so it ends even at 65535. */
  method ScanPorts(lo: nat, hi: nat) returns (ports: seq<nat>)
    requires lo < PORTS && hi < PORTS
    ensures ports == Scan(lo, hi)
  {
    ports := [];
    var p := lo;
    while p <= hi
      invariant lo <= p && (p <= hi + 1 || p == lo)
      invariant ports == seq(p - lo, i requires 0 <= i < p - lo => lo + i)
      decreases hi + 1 - p
    {
      ports := ports + [p % PORTS];
      p := (p + 1) % WRAP32;
    }
  }

  // ---- Grouping: the reference ----

  predicate Within(ports: seq<nat>, n: nat) {
    forall i | 0 <= i < |ports| :: ports[i] < n
  }

  predicate SeenOn(o: Option<Obs>, q: nat) {
    o.Some? && o.value.queue == q
  }

  /** The ports of `ports` last seen on `q`, in order. */
  function Group(ports: seq<nat>, obs: seq<Option<Obs>>, q: nat): (g: seq<nat>)
    requires Within(ports, |obs|)
    ensures |g| <= |ports|
  {
    if ports == [] then []
    else
      var p := ports[|ports| - 1];
      var g := Group(ports[..|ports| - 1], obs, q);
      if SeenOn(obs[p], q) then g + [p] else g
  }

  function Take(s: seq<nat>, k: nat): (r: seq<nat>) {
    if |s| <= k then s else s[..k]
  }

  lemma TakeStep(s: seq<nat>, p: nat, k: nat)
    ensures Take(s + [p], k) == if |s| < k then s + [p] else Take(s, k)
  {}

  // ---- One pass ----

  function Chosen(ports: seq<nat>, obs: seq<Option<Obs>>, queues: nat, k: nat): (pairs: seq<(nat, nat)>)
    requires Within(ports, |obs|)
  {
    if ports == [] then []
    else
      var rest, p := ports[..|ports| - 1], ports[|ports| - 1];
      var pairs := Chosen(rest, obs, queues, k);
      if obs[p].Some? && obs[p].value.queue < queues && |Group(rest, obs, obs[p].value.queue)| < k
      then pairs + [(p, obs[p].value.queue)] else pairs
  }

  /** The ports emitted for `q`, in order of emission. */
  function Emitted(pairs: seq<(nat, nat)>, q: nat): (s: seq<nat>) {
    if pairs == [] then []
    else
      var s, last := Emitted(pairs[..|pairs| - 1], q), pairs[|pairs| - 1];
      if last.1 == q then s + [last.0] else s
  }

  lemma EmittedStep(pairs: seq<(nat, nat)>, p: nat, at: nat, q: nat)
    ensures Emitted(pairs + [(p, at)], q) == if at == q then Emitted(pairs, q) + [p] else Emitted(pairs, q)
  {
    assert (pairs + [(p, at)])[..|pairs|] == pairs;
  }

  /** Each queue gets exactly the first `k` ports last seen on it. */
  lemma {:induction false} ChosenIsTruncatedGroup(ports: seq<nat>, obs: seq<Option<Obs>>, queues: nat, k: nat, q: nat)
    requires Within(ports, |obs|)
    requires q < queues
    ensures Emitted(Chosen(ports, obs, queues, k), q) == Take(Group(ports, obs, q), k)
  {
    if ports != [] {
      var rest, p := ports[..|ports| - 1], ports[|ports| - 1];
      ChosenIsTruncatedGroup(rest, obs, queues, k, q);
      TakeStep(Group(rest, obs, q), p, k);
      if obs[p].Some? {
        EmittedStep(Chosen(rest, obs, queues, k), p, obs[p].value.queue, q);
      }
    }
  }

  /** A group holds the ports seen on its queue and no others, once each and in ascending order. */
  lemma {:induction false} GroupIs(ports: seq<nat>, obs: seq<Option<Obs>>, q: nat)
    requires Within(ports, |obs|) && Ascending(ports)
    ensures Ascending(Group(ports, obs, q))
    ensures forall p :: p in Group(ports, obs, q) <==> p in ports && obs[p].Some? && obs[p].value.queue == q
  {
    if ports != [] {
      var n := |ports| - 1;
      var rest, p := ports[..n], ports[n];
      GroupIs(rest, obs, q);
      var g := Group(rest, obs, q);
      assert ports == rest + [p];
      forall i | 0 <= i < |g| ensures g[i] < p {
        assert g[i] in g;
        var j :| 0 <= j < n && rest[j] == g[i];
        assert ports[j] == g[i];
      }
    }
  }

  /** A scanned port with the queue it was seen on, which is one there is. */
  predicate PairOk(pair: (nat, nat), ports: seq<nat>, obs: seq<Option<Obs>>, queues: nat) {
    pair.0 in ports && pair.0 < |obs| && SeenOn(obs[pair.0], pair.1) && pair.1 < queues
  }

  predicate PairsOk(pairs: seq<(nat, nat)>, ports: seq<nat>, obs: seq<Option<Obs>>, queues: nat) {
    && (forall i, j | 0 <= i < j < |pairs| :: pairs[i].0 < pairs[j].0)
    && (forall i | 0 <= i < |pairs| :: PairOk(pairs[i], ports, obs, queues))
  }

  lemma PairsNext(pairs: seq<(nat, nat)>, ports: seq<nat>, obs: seq<Option<Obs>>, queues: nat)
    requires ports != [] && Ascending(ports) && PairsOk(pairs, ports[..|ports| - 1], obs, queues)
    ensures PairsOk(pairs, ports, obs, queues)
    ensures forall i | 0 <= i < |pairs| :: pairs[i].0 < ports[|ports| - 1]
  {
    var n := |ports| - 1;
    forall i | 0 <= i < |pairs|
      ensures pairs[i].0 < ports[n] && PairOk(pairs[i], ports, obs, queues)
    {
      assert PairOk(pairs[i], ports[..n], obs, queues);
      var j :| 0 <= j < n && ports[..n][j] == pairs[i].0;
      assert ports[j] == pairs[i].0;
    }
  }

  /** The pairs come in ascending order of port, each with the queue its port was seen on, and only
      for queues there are. */
  lemma {:induction false} ChosenIs(ports: seq<nat>, obs: seq<Option<Obs>>, queues: nat, k: nat)
    requires Within(ports, |obs|) && Ascending(ports)
    ensures PairsOk(Chosen(ports, obs, queues, k), ports, obs, queues)
  {
    hide Group;
    if ports != [] {
      var n := |ports| - 1;
      ChosenIs(ports[..n], obs, queues, k);
      PairsNext(Chosen(ports[..n], obs, queues, k), ports, obs, queues);
    }
  }

  function GroupNext(ports: seq<nat>, obs: seq<Option<Obs>>, i: nat, q: nat): (g: seq<nat>)
    requires Within(ports, |obs|) && i < |ports|
  {
    var g := Group(ports[..i], obs, q);
    if SeenOn(obs[ports[i]], q) then g + [ports[i]] else g
  }

  lemma GroupStep(ports: seq<nat>, obs: seq<Option<Obs>>, i: nat, q: nat)
    requires Within(ports, |obs|) && i < |ports|
    ensures Group(ports[..i + 1], obs, q) == GroupNext(ports, obs, i, q)
  {
    assert ports[..i + 1][..i] == ports[..i];
  }

  function ChosenNext(ports: seq<nat>, obs: seq<Option<Obs>>, queues: nat, k: nat, i: nat): (pairs: seq<(nat, nat)>)
    requires Within(ports, |obs|) && i < |ports|
  {
    var p, pairs := ports[i], Chosen(ports[..i], obs, queues, k);
    if obs[p].Some? && obs[p].value.queue < queues && |Group(ports[..i], obs, obs[p].value.queue)| < k
    then pairs + [(p, obs[p].value.queue)] else pairs
  }

  lemma ChosenStep(ports: seq<nat>, obs: seq<Option<Obs>>, queues: nat, k: nat, i: nat)
    requires Within(ports, |obs|) && i < |ports|
    ensures Chosen(ports[..i + 1], obs, queues, k) == ChosenNext(ports, obs, queues, k, i)
  {
    assert ports[..i + 1][..i] == ports[..i];
  }

  lemma ChosenOfNone(ports: seq<nat>, obs: seq<Option<Obs>>, queues: nat, k: nat)
    ensures Chosen(ports[..0], obs, queues, k) == []
    ensures forall q :: Group(ports[..0], obs, q) == []
  {}

  /** The selection loop, with its 16-bit count per queue. */
  method PickPorts(ports: seq<nat>, obs: array<Option<Obs>>, queues: nat, k: nat)
    returns (pairs: seq<(nat, nat)>, counts: array<nat>)
    requires Within(ports, obs.Length)
    requires k < PORTS
    ensures pairs == Chosen(ports, obs[..], queues, k)
    ensures fresh(counts) && counts.Length == queues
    ensures forall q | 0 <= q < queues :: counts[q] == Min(|Group(ports, obs[..], q)|, k)
  {
    hide Chosen, Group;
    counts := new nat[queues](_ => 0);
    pairs := [];
    ChosenOfNone(ports, obs[..], queues, k);
    ghost var table := obs[..];
    for i := 0 to |ports|
      invariant fresh(counts) && obs[..] == table
      invariant pairs == Chosen(ports[..i], table, queues, k)
      invariant forall q | 0 <= q < queues :: counts[q] == Min(|Group(ports[..i], table, q)|, k)
    {
      var p := ports[i];
      ChosenStep(ports, table, queues, k, i);
      forall q ensures Group(ports[..i + 1], table, q) == GroupNext(ports, table, i, q) {
        GroupStep(ports, table, i, q);
      }
      if obs[p].Some? {
        var q := obs[p].value.queue;
        if q < queues && counts[q] < k {
          pairs := pairs + [(p, q)];
          counts[q] := (counts[q] + 1) % PORTS;
        }
      }
      assert forall q | 0 <= q < queues :: counts[q] == Min(|GroupNext(ports, table, i, q)|, k);
    }
    assert ports[..|ports|] == ports;
  }

  /** The queues whose group reaches the quota. */
  ghost function Full(ports: seq<nat>, obs: seq<Option<Obs>>, queues: nat, k: nat): (s: set<nat>)
    requires Within(ports, |obs|)
  {
    set q | 0 <= q < queues && |Group(ports, obs, q)| >= k
  }

  lemma FullStep(ports: seq<nat>, obs: seq<Option<Obs>>, q: nat, k: nat)
    requires Within(ports, |obs|)
    ensures |Full(ports, obs, q + 1, k)|
         == |Full(ports, obs, q, k)| + if |Group(ports, obs, q)| >= k then 1 else 0
  {
    var a, b := Full(ports, obs, q, k), Full(ports, obs, q + 1, k);
    assert q !in a;
    assert b == if |Group(ports, obs, q)| >= k then a + {q} else a;
  }

  /** The whole report: the emitted pairs and how many queues were filled. */
  method Select(ports: seq<nat>, obs: array<Option<Obs>>, queues: nat, k: nat)
    returns (pairs: seq<(nat, nat)>, filled: nat)
    requires Within(ports, obs.Length)
    requires k < PORTS
    ensures pairs == Chosen(ports, obs[..], queues, k)
    ensures filled == |Full(ports, obs[..], queues, k)|
  {
    var counts;
    pairs, counts := PickPorts(ports, obs, queues, k);
    filled := 0;
    for q := 0 to queues
      invariant filled == |Full(ports, obs[..], q, k)|
      invariant forall j | 0 <= j < queues :: counts[j] == Min(|Group(ports, obs[..], j)|, k)
    {
      FullStep(ports, obs[..], q, k);
      if counts[q] >= k {
        filled := filled + 1;
      }
    }
  }

  // ---- Group, then truncate ----

  /** The processor that serves a queue. */
  function CpuOf(cpus: map<nat, string>, q: nat): (cpu: string) {
    if q in cpus then cpus[q] else "?"
  }

  /** The ports of `ports` last seen on a queue served by `cpu`, in order. */
  function CpuGroup(ports: seq<nat>, obs: seq<Option<Obs>>, cpus: map<nat, string>, cpu: string): (g: seq<nat>)
    requires Within(ports, |obs|)
  {
    if ports == [] then []
    else
      var p := ports[|ports| - 1];
      var g := CpuGroup(ports[..|ports| - 1], obs, cpus, cpu);
      if obs[p].Some? && CpuOf(cpus, obs[p].value.queue) == cpu then g + [p] else g
  }

  function Appended<K>(lists: map<K, seq<nat>>, key: K, p: nat): (r: map<K, seq<nat>>) {
    lists[key := (if key in lists then lists[key] else []) + [p]]
  }

  function Trimmed<K>(lists: map<K, seq<nat>>, k: nat): (r: map<K, seq<nat>>) {
    map key | key in lists :: Take(lists[key], k)
  }

  /** The kernel probe's dictionaries: ports in ascending order appended to the lists of their
      queue and of its processor, every list cut to `k` at the end. */
  method GroupPorts(ports: seq<nat>, obs: seq<Option<Obs>>, cpus: map<nat, string>, k: nat)
    returns (byQueue: map<nat, seq<nat>>, byCpu: map<string, seq<nat>>)
    requires Within(ports, |obs|) && forall i | 0 <= i < |ports| :: obs[ports[i]].Some?
    ensures forall q :: q in byQueue <==> Group(ports, obs, q) != []
    ensures forall q | q in byQueue :: byQueue[q] == Take(Group(ports, obs, q), k)
    ensures forall c :: c in byCpu <==> CpuGroup(ports, obs, cpus, c) != []
    ensures forall c | c in byCpu :: byCpu[c] == Take(CpuGroup(ports, obs, cpus, c), k)
  {
    hide ByQueue, ByCpu;
    byQueue, byCpu := map[], map[];
    NoLists(obs, cpus, ports[..0]);
    for i := 0 to |ports|
      invariant ByQueue(byQueue, ports[..i], obs) && ByCpu(byCpu, ports[..i], obs, cpus)
    {
      QueueStep(byQueue, ports, obs, i);
      CpuStep(byCpu, ports, obs, cpus, i);
      var q := obs[ports[i]].value.queue;
      byQueue := Appended(byQueue, q, ports[i]);
      byCpu := Appended(byCpu, CpuOf(cpus, q), ports[i]);
    }
    assert ports[..|ports|] == ports;
    ListsTrimmed(byQueue, byCpu, ports, obs, cpus, k);
    byQueue, byCpu := Trimmed(byQueue, k), Trimmed(byCpu, k);
  }

  /** The lists are exactly the non-empty groups. */
  ghost predicate ByQueue(lists: map<nat, seq<nat>>, ports: seq<nat>, obs: seq<Option<Obs>>)
    requires Within(ports, |obs|)
  {
    && (forall q :: q in lists <==> Group(ports, obs, q) != [])
    && (forall q | q in lists :: lists[q] == Group(ports, obs, q))
  }

  ghost predicate ByCpu(lists: map<string, seq<nat>>, ports: seq<nat>, obs: seq<Option<Obs>>, cpus: map<nat, string>)
    requires Within(ports, |obs|)
  {
    && (forall c :: c in lists <==> CpuGroup(ports, obs, cpus, c) != [])
    && (forall c | c in lists :: lists[c] == CpuGroup(ports, obs, cpus, c))
  }

  lemma NoLists(obs: seq<Option<Obs>>, cpus: map<nat, string>, ports: seq<nat>)
    requires ports == []
    ensures ByQueue(map[], ports, obs) && ByCpu(map[], ports, obs, cpus)
  {}

  lemma QueueStep(lists: map<nat, seq<nat>>, ports: seq<nat>, obs: seq<Option<Obs>>, i: nat)
    requires Within(ports, |obs|) && i < |ports| && obs[ports[i]].Some? && ByQueue(lists, ports[..i], obs)
    ensures ByQueue(Appended(lists, obs[ports[i]].value.queue, ports[i]), ports[..i + 1], obs)
  {
    hide Group;
    var p := ports[i];
    var key := obs[p].value.queue;
    var r := Appended(lists, key, p);
    forall q: nat
      ensures q in r <==> Group(ports[..i + 1], obs, q) != []
      ensures q in r ==> r[q] == Group(ports[..i + 1], obs, q)
    {
      GroupStep(ports, obs, i, q);
      var g := Group(ports[..i], obs, q);
      assert q in lists ==> lists[q] == g;
      assert q !in lists ==> g == [];
      assert q == key ==> |Group(ports[..i + 1], obs, q)| == |g| + 1;
    }
  }

  lemma CpuStep(lists: map<string, seq<nat>>, ports: seq<nat>, obs: seq<Option<Obs>>, cpus: map<nat, string>, i: nat)
    requires Within(ports, |obs|) && i < |ports| && obs[ports[i]].Some? && ByCpu(lists, ports[..i], obs, cpus)
    ensures ByCpu(Appended(lists, CpuOf(cpus, obs[ports[i]].value.queue), ports[i]), ports[..i + 1], obs, cpus)
  {
    hide CpuGroup;
    var p := ports[i];
    var key := CpuOf(cpus, obs[p].value.queue);
    var r := Appended(lists, key, p);
    forall c: string
      ensures c in r <==> CpuGroup(ports[..i + 1], obs, cpus, c) != []
      ensures c in r ==> r[c] == CpuGroup(ports[..i + 1], obs, cpus, c)
    {
      CpuGroupStep(ports, obs, cpus, i, c);
      var g := CpuGroup(ports[..i], obs, cpus, c);
      assert c in lists ==> lists[c] == g;
      assert c !in lists ==> g == [];
      assert c == key ==> |CpuGroup(ports[..i + 1], obs, cpus, c)| == |g| + 1;
    }
  }

  predicate ServedBy(o: Option<Obs>, cpus: map<nat, string>, cpu: string) {
    o.Some? && CpuOf(cpus, o.value.queue) == cpu
  }

  /** A processor's list holds the ports seen on any queue it serves, in ascending order. */
  lemma {:induction false} CpuGroupIs(ports: seq<nat>, obs: seq<Option<Obs>>, cpus: map<nat, string>, cpu: string)
    requires Within(ports, |obs|) && Ascending(ports)
    ensures Ascending(CpuGroup(ports, obs, cpus, cpu))
    ensures forall p :: p in CpuGroup(ports, obs, cpus, cpu) <==> p in ports && ServedBy(obs[p], cpus, cpu)
  {
    hide CpuOf;
    if ports != [] {
      var n := |ports| - 1;
      var rest, p := ports[..n], ports[n];
      CpuGroupIs(rest, obs, cpus, cpu);
      var g := CpuGroup(rest, obs, cpus, cpu);
      assert ports == rest + [p];
      forall i | 0 <= i < |g| ensures g[i] < p {
        assert g[i] in g;
        var j :| 0 <= j < n && rest[j] == g[i];
        assert ports[j] == g[i];
      }
    }
  }

  lemma CpuGroupStep(ports: seq<nat>, obs: seq<Option<Obs>>, cpus: map<nat, string>, i: nat, c: string)
    requires Within(ports, |obs|) && i < |ports| && obs[ports[i]].Some?
    ensures CpuGroup(ports[..i + 1], obs, cpus, c)
         == if CpuOf(cpus, obs[ports[i]].value.queue) == c then CpuGroup(ports[..i], obs, cpus, c) + [ports[i]]
            else CpuGroup(ports[..i], obs, cpus, c)
  {
    assert ports[..i + 1][..i] == ports[..i];
  }

  lemma ListsTrimmed(byQueue: map<nat, seq<nat>>, byCpu: map<string, seq<nat>>, ports: seq<nat>,
                     obs: seq<Option<Obs>>, cpus: map<nat, string>, k: nat)
    requires Within(ports, |obs|) && ByQueue(byQueue, ports, obs) && ByCpu(byCpu, ports, obs, cpus)
    ensures var q', c' := Trimmed(byQueue, k), Trimmed(byCpu, k);
            && (forall q :: q in q' <==> Group(ports, obs, q) != [])
            && (forall q | q in q' :: q'[q] == Take(Group(ports, obs, q), k))
            && (forall c :: c in c' <==> CpuGroup(ports, obs, cpus, c) != [])
            && (forall c | c in c' :: c'[c] == Take(CpuGroup(ports, obs, cpus, c), k))
  {
    hide Group, CpuGroup;
  }

  predicate Ascending(s: seq<nat>) {
    forall i, j | 0 <= i < j < |s| :: s[i] < s[j]
  }

  /** The observed ports of a list, in order. */
  function Seen(ports: seq<nat>, obs: seq<Option<Obs>>): (s: seq<nat>)
    requires Within(ports, |obs|)
    ensures forall p :: p in s <==> p in ports && obs[p].Some?
  {
    if ports == [] then []
    else
      var p := ports[|ports| - 1];
      assert ports == ports[..|ports| - 1] + [p];
      var s := Seen(ports[..|ports| - 1], obs);
      if obs[p].Some? then s + [p] else s
  }

  lemma {:induction false} SeenAscending(ports: seq<nat>, obs: seq<Option<Obs>>)
    requires Within(ports, |obs|)
    requires Ascending(ports)
    ensures Ascending(Seen(ports, obs))
  {
    if ports != [] {
      var rest, p := ports[..|ports| - 1], ports[|ports| - 1];
      SeenAscending(rest, obs);
      var s := Seen(rest, obs);
      forall i | 0 <= i < |s| ensures s[i] < p {
        assert s[i] in s;
        var j :| 0 <= j < |rest| && rest[j] == s[i];
        assert ports[j] == s[i];
      }
    }
  }

  /** Grouping does not care about ports that were never answered. */
  lemma {:induction false} GroupOfSeen(ports: seq<nat>, obs: seq<Option<Obs>>, q: nat)
    requires Within(ports, |obs|)
    ensures Within(Seen(ports, obs), |obs|)
    ensures Group(Seen(ports, obs), obs, q) == Group(ports, obs, q)
  {
    if ports != [] {
      var rest, p := ports[..|ports| - 1], ports[|ports| - 1];
      GroupOfSeen(rest, obs, q);
      if obs[p].Some? {
        var s := Seen(ports, obs);
        assert s[..|s| - 1] == Seen(rest, obs);
      }
    }
  }

  /** An ascending list is determined by its elements. */
  lemma AscendingUnique(a: seq<nat>, b: seq<nat>)
    requires Ascending(a) && Ascending(b)
    requires forall x :: x in a <==> x in b
    ensures a == b
  {
    SameElements((x: nat, y: nat) => x < y, a, b);
  }

  /** One pass over the scan emits, for every queue, exactly the list the grouping probe
      would keep, given the same replies in whatever order the dictionary was filled. */
  lemma OnePassRefinesGrouping(trace: seq<Packet>, dnsPort: nat, obs: seq<Option<Obs>>, lo: nat, hi: nat,
                               sorted: seq<nat>, queues: nat, k: nat, q: nat)
    requires |obs| == PORTS && lo < PORTS && hi < PORTS && q < queues
    requires forall p | 0 <= p < PORTS :: obs[p] == LastReply(trace, dnsPort, p)
    requires Ascending(sorted)
    requires forall p :: p in sorted <==> lo <= p <= hi && LastReply(trace, dnsPort, p).Some?
    ensures Within(sorted, PORTS)
    ensures Emitted(Chosen(Scan(lo, hi), obs, queues, k), q) == Take(Group(sorted, obs, q), k)
  {
    var ports := Scan(lo, hi);
    ChosenIsTruncatedGroup(ports, obs, queues, k, q);
    GroupOfSeen(ports, obs, q);
    SeenAscending(ports, obs);
    forall p ensures p in sorted <==> p in Seen(ports, obs) {
      assert lo <= p <= hi ==> ports[p - lo] == p;
    }
    AscendingUnique(sorted, Seen(ports, obs));
  }
}
