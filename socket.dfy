/** libprocess's socket handle layer: a `SocketImpl` owns one descriptor and
    is shared, through reference counting, by any number of `Socket` handles;
    the descriptor is closed when the last handle goes, unless it was
    released first.

    The reference count is the use count of the `shared_ptr` that holds the
    impl, kept here as a field of the impl. `os::close` and `::shutdown` are
    recorded in logs instead of being performed; what `::shutdown` returns
    is a parameter. */
module Sockets {
  import opened Wrappers
  import opened Strings

  /** `SocketImpl::Kind`: which backend implements the socket. */
  datatype Kind = Poll | Ssl

  /** `inet::Address` and the family-erased `network::Address`, the two
      address types handles are instantiated with. Their contents play no
      part in this model. */
  datatype InetAddress = InetAddress(ip: seq<byte>, port: nat)
  datatype NetworkAddress = Inet(address: InetAddress) | Unix(path: string)

  /** The `how` argument that shuts down the receive side (its Linux value). */
  const SHUT_RD: int := 0

  class SocketImpl {
    /** The wrapped descriptor; -1 once released. */
    var s: int
    /** The backend, fixed at construction. */
    const kind: Kind
    /** The descriptor the impl was constructed with. */
    ghost const descriptor: int
    /** How many `shared_ptr`s (handles) share this impl. */
    var refs: nat
    /** Every descriptor this impl has passed to `os::close`. */
    var closed: seq<int>
    /** Every `(descriptor, how)` pair this impl has passed to `::shutdown`. */
    var shutdowns: seq<(int, int)>

    /** The ownership invariant: the impl holds its own descriptor or the
        released sentinel, and it has closed something only once the last
        reference is gone — then exactly its descriptor, once, and nothing at
        all if the descriptor was released. */
    ghost predicate Valid()
      reads this
    {
      && descriptor >= 0
      && (s == descriptor || s == -1)
      && closed == (if refs == 0 && s >= 0 then [descriptor] else [])
    }

    /** The protected constructor, wrapped in its first `shared_ptr`.
        `CHECK(s >= 0)` aborts the process on a negative descriptor, so no
        caller may pass one. */
    constructor (fd: int, backend: Kind)
      requires fd >= 0
      ensures s == fd && descriptor == fd && kind == backend
      ensures refs == 1 && closed == [] && shutdowns == []
      ensures Valid()
    {
      s := fd;
      kind := backend;
      descriptor := fd;
      refs := 1;
      closed := [];
      shutdowns := [];
    }

    /** `get()`: the descriptor the impl was constructed with, until it is
        released; -1 afterwards. */
    function Get(): (fd: int)
      reads this
      requires Valid()
      ensures fd == s
      ensures fd >= 0 <==> fd == descriptor
      ensures fd < 0 ==> fd == -1
    {
      s
    }

    /** `release()`: hands the descriptor out and keeps -1, so that the
        destructor no longer closes it. Releasing twice yields -1. */
    method Release() returns (released: int)
      requires Valid() && refs > 0
      modifies this
      ensures released == old(s)
      ensures s == -1
      ensures refs == old(refs) && closed == old(closed) && shutdowns == old(shutdowns)
      ensures Valid()
    {
      released := s;
      s := -1;
    }

    /** `shutdown()`: shuts down the receive side of the held descriptor; a
        negative answer from `::shutdown` (`rc`) becomes the error `errno`.
        The system always refuses the released sentinel -1. */
    method Shutdown(rc: int, errno: int) returns (r: Outcome<int>)
      requires Valid() && refs > 0
      requires s < 0 ==> rc < 0
      modifies this
      ensures shutdowns == old(shutdowns) + [(s, SHUT_RD)]
      ensures s == -1 ==> r == Fail(errno)
      ensures rc < 0 ==> r == Fail(errno)
      ensures rc >= 0 ==> r == Pass
      ensures s == old(s) && refs == old(refs) && closed == old(closed)
      ensures Valid()
    {
      shutdowns := shutdowns + [(s, SHUT_RD)];
      if rc < 0 {
        return Fail(errno);
      }
      return Pass;
    }

    /** `shared(this)` and every copy of a `shared_ptr` to the impl: one
        more owner of the same impl. */
    method Shared() returns (p: SocketImpl)
      requires Valid() && refs > 0
      modifies this
      ensures p == this
      ensures refs == old(refs) + 1
      ensures s == old(s) && closed == old(closed) && shutdowns == old(shutdowns)
      ensures Valid()
    {
      refs := refs + 1;
      p := this;
    }

    /** Dropping one owner. When the last one goes `~SocketImpl` runs, and
        it closes the descriptor only if it was not released. */
    method Unref()
      requires Valid() && refs > 0
      modifies this
      ensures refs == old(refs) - 1
      ensures closed == old(closed) + (if refs == 0 && s >= 0 then [s] else [])
      ensures s == old(s) && shutdowns == old(shutdowns)
      ensures Valid()
    {
      refs := refs - 1;
      if refs == 0 && s >= 0 {
        closed := closed + [s];
      }
    }
  }

  /** Whatever state a valid impl is in, it has closed at most one
      descriptor, that descriptor is its own, and a released impl has closed
      nothing. */
  lemma ClosedAtMostOnce(impl: SocketImpl)
    requires impl.Valid()
    ensures |impl.closed| <= 1
    ensures forall i :: 0 <= i < |impl.closed| ==> impl.closed[i] == impl.descriptor
    ensures impl.s == -1 ==> impl.closed == []
    ensures impl.refs > 0 ==> impl.closed == []
  {
  }

  /** `Socket<AddressType>`: a handle holding one shared reference to an
      impl. The address type only fixes what `address()`/`peer()` return. */
  datatype Socket<AddressType> = Socket(impl: SocketImpl)

  /** `Socket::create(s, kind)` and `Socket::create(kind)`, given what
      `SocketImpl::create` produced: its error, or a handle to its impl. */
  function Create<A>(created: Result<SocketImpl, string>): (r: Result<Socket<A>, string>)
    ensures r.Err? <==> created.Err?
    ensures r.Err? ==> r.error == created.error
    ensures r.Ok? ==> r.value.impl == created.value
  {
    match created
    case Ok(impl) => Ok(Socket(impl))
    case Err(e) => Err(e)
  }

  /** `accept()`: the accepted impl (or the failure) of the listening
      impl's `accept`, re-wrapped as a handle of the same address type. The
      listening handle is left as it was. */
  method Accept<A>(listener: Socket<A>, accepted: Result<SocketImpl, string>) returns (r: Result<Socket<A>, string>)
    requires listener.impl.Valid() && listener.impl.refs > 0
    ensures r == Create(accepted)
    ensures r.Ok? ==> r.value.impl == accepted.value
  {
    r := Create(accepted);
  }

  /** `operator==`: handles are equal exactly when they share an impl, whatever
      descriptors the impls hold. */
  function Equals<A>(a: Socket<A>, b: Socket<A>): (r: bool)
    ensures r <==> a == b
  {
    a.impl == b.impl
  }

  /** `get()` and `operator int`: the shared impl's descriptor. */
  function Get<A>(socket: Socket<A>): (fd: int)
    reads socket.impl
    requires socket.impl.Valid()
    ensures fd == socket.impl.Get()
    ensures fd >= 0 ==> fd == socket.impl.descriptor
  {
    socket.impl.Get()
  }

  /** `kind()`: the shared impl's backend. */
  function KindOf<A>(socket: Socket<A>): (k: Kind)
    ensures k == socket.impl.kind
  {
    socket.impl.kind
  }

  /** `operator Socket<network::Address>()`: a family-erased handle to the
      same impl, which is one more owner of it. */
  method Widen<A>(socket: Socket<A>) returns (r: Socket<NetworkAddress>)
    requires socket.impl.Valid() && socket.impl.refs > 0
    modifies socket.impl
    ensures socket.impl.Valid()
    ensures r.impl == socket.impl
    ensures Get(r) == Get(socket) == old(socket.impl.Get())
    ensures KindOf(r) == KindOf(socket)
    ensures socket.impl.refs == old(socket.impl.refs) + 1
    ensures socket.impl.closed == old(socket.impl.closed)
    ensures socket.impl.shutdowns == old(socket.impl.shutdowns) && socket.impl.s == old(socket.impl.s)
  {
    var impl := socket.impl.Shared();
    r := Socket(impl);
  }

  /** A descriptor number closed by the last owner of one impl and then
      reused by a new impl: a handle to the old impl and a handle to the new
      one are not equal, although both impls were built from the same number. */
  method ReusedDescriptorNotEqual(fd: int, backend: Kind) returns (a: Socket<NetworkAddress>, b: Socket<NetworkAddress>)
    requires fd >= 0
    ensures a.impl.Valid() && b.impl.Valid()
    ensures a.impl.refs == 0 && a.impl.closed == [fd]
    ensures b.impl.refs == 1 && b.impl.closed == [] && Get(b) == fd
    ensures a.impl.descriptor == b.impl.descriptor == fd
    ensures !Equals(a, b)
  {
    var first := new SocketImpl(fd, backend);
    first.Unref();
    var second := new SocketImpl(fd, backend);
    a := Socket(first);
    b := Socket(second);
  }

  // The string-level `recv(size)` of the doc-comment, over a peer's stream.

  /** Why a `recv` of `N` bytes fails: the stream ended first. */
  datatype RecvError = EndOfStream

  /** The stream as the chunks the peer makes available, in order, then
      end-of-stream. A read returns at least one byte unless the stream has
      ended, so no chunk is empty. */
  predicate WellFormed(chunks: seq<string>)
  {
    forall i :: 0 <= i < |chunks| ==> chunks[i] != []
  }

  /** Reads until `n` bytes have arrived: the first `n` bytes of the stream
      and what is left of it, or `EndOfStream` when fewer than `n` remain. */
  function ReadExactly(chunks: seq<string>, n: nat): (r: Result<(string, seq<string>), RecvError>)
    requires WellFormed(chunks)
    ensures r.Ok? <==> n <= |Flatten(chunks)|
    ensures r.Ok? ==> r.value.0 == Flatten(chunks)[..n]
    ensures r.Ok? ==> r.value.0 + Flatten(r.value.1) == Flatten(chunks)
    ensures r.Ok? ==> WellFormed(r.value.1)
    decreases |chunks|
  {
    if n == 0 then Ok(([], chunks))
    else if chunks == [] then Err(EndOfStream)
    else if n <= |chunks[0]| then
      var rest := if n == |chunks[0]| then chunks[1..] else [chunks[0][n..]] + chunks[1..];
      assert Flatten(rest) == chunks[0][n..] + Flatten(chunks[1..]);
      Ok((chunks[0][..n], rest))
    else
      match ReadExactly(chunks[1..], n - |chunks[0]|)
      case Err(e) => Err(e)
      case Ok((data, rest)) => Ok((chunks[0] + data, rest))
  }

  /** `recv(size)`: 0 reads nothing and yields the empty string; a negative
      size reads until end-of-stream; a positive `N` reads exactly `N` bytes
      or fails; no size yields what one read returns — the next chunk, or
      the empty string at end-of-stream. The result is the data and the
      stream left for later reads. */
  function Recv(size: Option<int>, chunks: seq<string>): (r: Result<(string, seq<string>), RecvError>)
    requires WellFormed(chunks)
    ensures size == Some(0) ==> r == Ok(([], chunks))
    ensures size.Some? && size.value < 0 ==> r == Ok((Flatten(chunks), []))
    ensures size.Some? && size.value > 0 ==> (r.Ok? <==> size.value <= |Flatten(chunks)|)
    ensures size.Some? && size.value > 0 && r.Ok? ==> |r.value.0| == size.value
    ensures size.None? && chunks != [] ==> r == Ok((chunks[0], chunks[1..]))
    ensures size.None? && chunks == [] ==> r == Ok(([], []))
    ensures r.Ok? ==> r.value.0 + Flatten(r.value.1) == Flatten(chunks) && WellFormed(r.value.1)
  {
    match size
    case None =>
      if chunks == [] then Ok(([], [])) else Ok((chunks[0], chunks[1..]))
    case Some(n) =>
      if n < 0 then Ok((Flatten(chunks), []))
      else ReadExactly(chunks, n)
  }

  /** Reading `m` bytes and then `n` more yields the same bytes as reading
      `m + n` at once: successive reads see the stream in order. */
  lemma ConsecutiveReads(chunks: seq<string>, m: nat, n: nat)
    requires WellFormed(chunks)
    requires ReadExactly(chunks, m).Ok?
    ensures var first := ReadExactly(chunks, m).value;
      ReadExactly(first.1, n).Ok? <==> ReadExactly(chunks, m + n).Ok?
    ensures var first := ReadExactly(chunks, m).value;
      ReadExactly(first.1, n).Ok? ==>
        first.0 + ReadExactly(first.1, n).value.0 == ReadExactly(chunks, m + n).value.0
  {
    var first := ReadExactly(chunks, m).value;
    var all := Flatten(chunks);
    assert Flatten(first.1) == all[m..];
    if ReadExactly(first.1, n).Ok? {
      assert all[..m] + all[m..][..n] == all[..m + n];
    }
  }

  /** A peer that writes "abc" and closes: reading until end-of-stream
      yields "abc". */
  lemma ReadToEndExample()
    ensures Recv(Some(-1), ["ab", "c"]) == Ok(("abc", []))
  {
    assert Flatten(["c"]) == "c" + Flatten([]);
    assert Flatten(["ab", "c"]) == "ab" + Flatten(["c"]);
    assert Flatten(["ab", "c"]) == "abc";
    assert Recv(Some(-1), ["ab", "c"]) == Ok((Flatten(["ab", "c"]), []));
  }

  /** A peer that writes only "ab" and closes: reading 5 bytes fails. */
  lemma ShortStreamExample()
    ensures Recv(Some(5), ["ab"]) == Err(EndOfStream)
  {
    assert Flatten(["ab"]) == "ab" + Flatten([]);
  }
}
