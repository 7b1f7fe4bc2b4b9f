/**
 * Two helpers of the Go agent: the `MultiWriter` that fans one log write
 * out to several writers, and the search `getServerInfo` makes for the
 * address that names this server's directory in the bin.
 */
module AgentUtils {
  import opened Wrappers

  type Bytes = seq<bv8>

  // ---------------------------------------------------------------------
  // MultiWriter
  // ---------------------------------------------------------------------

  /** What an `io.Writer.Write` call returns. */
  datatype Reply = Reply(n: int, err: Option<string>)

  /** One writer: the buffers it was given so far, and what it answers (decided by the system). */
  datatype Sink = Sink(received: seq<Bytes>, answer: Reply)

  /** The index of the first writer that answers with an error, or the number of writers. */
  function FirstFailure(ws: seq<Sink>): (k: nat)
    ensures k <= |ws|
    ensures forall i :: 0 <= i < k ==> ws[i].answer.err.None?
    ensures k < |ws| ==> ws[k].answer.err.Some?
    decreases |ws|
  {
    if ws == [] || ws[0].answer.err.Some? then 0 else 1 + FirstFailure(ws[1..])
  }

  /** How many writers a write reaches: up to and including the first that fails. */
  function Calls(ws: seq<Sink>): nat
  {
    if FirstFailure(ws) < |ws| then FirstFailure(ws) + 1 else |ws|
  }

  /** The first `k` writers, each given `p`. */
  function Delivered(ws: seq<Sink>, p: Bytes, k: nat): seq<Sink>
    requires k <= |ws|
  {
    seq(|ws|, i requires 0 <= i < |ws| => if i < k then ws[i].(received := ws[i].received + [p]) else ws[i])
  }

  /** What `MultiWriter.Write` returns: the first failing writer's reply, or `len(p)` and no error. */
  function MultiWrite(ws: seq<Sink>, p: Bytes): Reply
  {
    var k := FirstFailure(ws);
    if k < |ws| then ws[k].answer else Reply(|p|, None)
  }

  class MultiWriter {
    var writers: seq<Sink>

    constructor (writers: seq<Sink>)
      ensures this.writers == writers
    {
      this.writers := writers;
    }

    /** `(*MultiWriter).Write(p)`. */
    method Write(p: Bytes) returns (n: int, err: Option<string>)
      modifies this
      ensures Reply(n, err) == MultiWrite(old(writers), p)
      ensures writers == Delivered(old(writers), p, Calls(old(writers)))
    {
      var i := 0;
      while i < |writers|
        invariant |writers| == |old(writers)|
        invariant 0 <= i <= FirstFailure(old(writers))
        invariant writers == Delivered(old(writers), p, i)
      {
        var w := writers[i];
        writers := writers[i := w.(received := w.received + [p])];
        n, err := w.answer.n, w.answer.err;
        if err.Some? {
          assert writers == Delivered(old(writers), p, i + 1);
          return;
        }
        assert writers == Delivered(old(writers), p, i + 1);
        i := i + 1;
      }
      return |p|, None;
    }
  }

  /**
   * The reply is an error exactly when some writer fails, and then it is the
   * first failing writer's own reply; otherwise it is `len(p)` whatever
   * counts the writers reported, also for no writers at all.
   */
  lemma MultiWriteReply(ws: seq<Sink>, p: Bytes)
    ensures MultiWrite(ws, p).err.None? <==> forall i :: 0 <= i < |ws| ==> ws[i].answer.err.None?
    ensures MultiWrite(ws, p).err.None? ==> MultiWrite(ws, p) == Reply(|p|, None)
    ensures MultiWrite(ws, p).err.Some? ==>
      exists k :: 0 <= k < |ws| && MultiWrite(ws, p) == ws[k].answer &&
        forall i :: 0 <= i < k ==> ws[i].answer.err.None?
  {
  }

  /**
   * The writers are reached in order with the same buffer: every writer up
   * to the first failure receives `p` once, every later writer nothing.
   */
  lemma DeliveredInOrder(ws: seq<Sink>, p: Bytes)
    ensures var out := Delivered(ws, p, Calls(ws));
      |out| == |ws| &&
      (forall i :: 0 <= i < |ws| && i <= FirstFailure(ws) ==> out[i].received == ws[i].received + [p]) &&
      (forall i :: FirstFailure(ws) < i < |ws| ==> out[i] == ws[i]) &&
      (forall i :: 0 <= i < |ws| ==> out[i].answer == ws[i].answer)
  {
  }

  // ---------------------------------------------------------------------
  // getServerInfo
  // ---------------------------------------------------------------------

  /** A `net.IP`: 4 or 16 bytes. */
  type IP = seq<bv8>

  /** One `net.Addr` of an interface, by dynamic type. */
  datatype Addr = IPNet(ip: IP) | IPAddr(ip: IP) | OtherAddr

  /** `ip.To4()`: a 4-byte address, or the last 4 bytes of an IPv4-mapped 16-byte one. */
  function To4(ip: IP): (r: Option<IP>)
    ensures r.Some? ==> |r.value| == 4
  {
    if |ip| == 4 then Some(ip)
    else if |ip| == 16 && ip[..10] == seq(10, _ => 0 as bv8) && ip[10] == 0xff && ip[11] == 0xff then Some(ip[12..])
    else None
  }

  /** `ip.IsLoopback()`: 127.0.0.0/8 for IPv4, `::1` otherwise. */
  predicate IsLoopback(ip: IP)
  {
    match To4(ip)
    case Some(v4) => v4[0] == 127
    case None => ip == seq(15, _ => 0 as bv8) + [1]
  }

  /** The address `getServerInfo` accepts: an `*net.IPNet` holding a non-loopback IPv4 address. */
  predicate Selects(a: Addr)
  {
    a.IPNet? && !IsLoopback(a.ip) && To4(a.ip).Some?
  }

  /** The first accepted address of one interface. */
  function FirstSelected(addrs: seq<Addr>): (r: Option<IP>)
    ensures r.None? <==> forall j :: 0 <= j < |addrs| ==> !Selects(addrs[j])
    ensures r.Some? ==>
      exists j :: 0 <= j < |addrs| && Selects(addrs[j]) && addrs[j].ip == r.value &&
        (forall i :: 0 <= i < j ==> !Selects(addrs[i]))
  {
    SelectedFrom(addrs, 0)
  }

  /** The inner loop from index `j` on, none of the earlier addresses being accepted. */
  function SelectedFrom(addrs: seq<Addr>, j: nat): (r: Option<IP>)
    requires j <= |addrs| && forall i :: 0 <= i < j ==> !Selects(addrs[i])
    ensures r.None? <==> forall i :: 0 <= i < |addrs| ==> !Selects(addrs[i])
    ensures r.Some? ==>
      exists m :: j <= m < |addrs| && Selects(addrs[m]) && addrs[m].ip == r.value &&
        (forall i :: 0 <= i < m ==> !Selects(addrs[i]))
    decreases |addrs| - j
  {
    if j == |addrs| then None
    else if Selects(addrs[j]) then Some(addrs[j].ip)
    else SelectedFrom(addrs, j + 1)
  }

  /** The interfaces before index `k` all listed their addresses, and none was accepted. */
  predicate SearchedPast(ifaces: seq<Result<seq<Addr>>>, k: int)
    requires 0 <= k <= |ifaces|
  {
    forall i :: 0 <= i < k ==> ifaces[i].Ok? && FirstSelected(ifaces[i].value).None?
  }

  /** How the search over the interfaces ends. */
  datatype Search = Found(ip: IP) | AddrsFailed(error: string) | NoneFound

  /**
   * The nested loop of `getServerInfo` over each interface's `Addrs()`
   * outcome: the first accepted address, in interface then address order,
   * unless an interface reached before it fails to list its addresses.
   */
  function FindServerIP(ifaces: seq<Result<seq<Addr>>>): (r: Search)
    ensures r.NoneFound? <==> SearchedPast(ifaces, |ifaces|)
    ensures r.Found? ==>
      exists k :: 0 <= k < |ifaces| && SearchedPast(ifaces, k) &&
        ifaces[k].Ok? && FirstSelected(ifaces[k].value) == Some(r.ip)
    ensures r.AddrsFailed? ==> exists k :: 0 <= k < |ifaces| && SearchedPast(ifaces, k) && ifaces[k] == Err(r.error)
  {
    SearchFrom(ifaces, 0)
  }

  /** The outer loop from interface `k` on, the earlier ones searched without success. */
  function SearchFrom(ifaces: seq<Result<seq<Addr>>>, k: nat): (r: Search)
    requires k <= |ifaces| && SearchedPast(ifaces, k)
    ensures r.NoneFound? <==> SearchedPast(ifaces, |ifaces|)
    ensures r.Found? ==>
      exists m :: k <= m < |ifaces| && SearchedPast(ifaces, m) &&
        ifaces[m].Ok? && FirstSelected(ifaces[m].value) == Some(r.ip)
    ensures r.AddrsFailed? ==> exists m :: k <= m < |ifaces| && SearchedPast(ifaces, m) && ifaces[m] == Err(r.error)
    decreases |ifaces| - k
  {
    if k == |ifaces| then NoneFound
    else
      match ifaces[k]
      case Err(e) => AddrsFailed(e)
      case Ok(addrs) =>
        match FirstSelected(addrs)
        case Some(ip) => Found(ip)
        case None => SearchFrom(ifaces, k + 1)
  }

  /** What `getServerInfo` returns: the chosen address and the host name. */
  datatype ServerInfo = ServerInfo(ip: IP, hostname: string)

  /**
   * `getServerInfo()`, given the outcome of `net.Interfaces()`, of each
   * interface's `Addrs()`, and of `os.Hostname()` (consulted only once an
   * address is accepted).
   */
  function GetServerInfo(ifaces: Result<seq<Result<seq<Addr>>>>, hostname: Result<string>): Result<ServerInfo>
  {
    match ifaces
    case Err(e) => Err(e)
    case Ok(list) =>
      match FindServerIP(list)
      case AddrsFailed(e) => Err(e)
      case NoneFound => Err("no private IP found")
      case Found(ip) =>
        match hostname
        case Err(e) => Err(e)
        case Ok(name) => Ok(ServerInfo(ip, name))
  }

  /**
   * The result is an accepted `*net.IPNet` address of the first interface
   * that has one, with every interface before it listed without error; an
   * `*net.IPAddr` is never accepted, so interfaces listing only those give
   * "no private IP found".
   */
  lemma ServerInfoChoice(list: seq<Result<seq<Addr>>>, hostname: Result<string>)
    ensures var r := GetServerInfo(Ok(list), hostname);
      r.Ok? ==>
        hostname == Ok(r.value.hostname) &&
        exists k, j :: 0 <= k < |list| && SearchedPast(list, k) && list[k].Ok? &&
          0 <= j < |list[k].value| && list[k].value[j] == IPNet(r.value.ip) &&
          !IsLoopback(r.value.ip) && To4(r.value.ip).Some?
    ensures (forall k :: 0 <= k < |list| ==> list[k].Ok? && (forall j :: 0 <= j < |list[k].value| ==> list[k].value[j].IPAddr?)) ==>
      GetServerInfo(Ok(list), hostname) == Err("no private IP found")
  {
    var r := GetServerInfo(Ok(list), hostname);
    if r.Ok? {
      var k :| 0 <= k < |list| && SearchedPast(list, k) && list[k].Ok? && FirstSelected(list[k].value) == Some(r.value.ip);
      var j :| 0 <= j < |list[k].value| && Selects(list[k].value[j]) && list[k].value[j].ip == r.value.ip &&
        forall i :: 0 <= i < j ==> !Selects(list[k].value[i]);
      assert list[k].value[j] == IPNet(r.value.ip);
    }
    if forall k :: 0 <= k < |list| ==> list[k].Ok? && (forall j :: 0 <= j < |list[k].value| ==> list[k].value[j].IPAddr?) {
      assert SearchedPast(list, |list|);
    }
  }
}
