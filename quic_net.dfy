// app/net (QUIC transport): the node-announce frame a node broadcasts and
// parses, the reachable routes it keeps sorted by route ID, and the dial
// failure counter of a route. Dialing, TLS, streams and the node module's
// Control retry loop are outside the model: their outcomes are parameters.
module QuicNet {
  import opened Wrappers
  import opened Ordering
  import opened Bytes
  import opened Buckets
  import opened Errors

  // ---------------------------------------------------------------------
  // Announce frame: BE16(len id) ++ id ++ BE16(len address) ++ address
  // ---------------------------------------------------------------------

  /** The frame deliverForBroadcast sends for one public address (the lengths as uint16). */
  function AnnounceFrame(nodeId: bytes, address: bytes): (frame: bytes)
    ensures |frame| == 4 + |nodeId| + |address|
  {
    BE16(Wrap(|nodeId|, U16)) + nodeId + BE16(Wrap(|address|, U16)) + address
  }

  /** What ServeBroadcast makes of a payload before it resolves the address. */
  datatype Announcement = Unavailable | Dropped | Ignored | Announced(nodeId: bytes, address: bytes)

  /**
   * ServeBroadcast's parse as written, on a payload whose backing array
   * holds the bytes spare past its length (Go bounds payload[0:2] by the
   * capacity, not the length): without node settings the module is
   * unavailable; a payload shorter than two bytes panics on payload[0:2]
   * only when its capacity is below two as well, and is otherwise dropped,
   * since no ID length leaves room for the address length; the frame is
   * dropped when the ID leaves no room for the address length or the
   * address does not end exactly at the payload's end; a frame carrying
   * this node's own ID is ignored.
   */
  function ParseAnnounceAsWritten(payload: bytes, spare: bytes, self: Option<bytes>): (r: Completion<Announcement>)
    ensures self.None? ==> r == Returned(Unavailable)
    ensures r.Panicked? <==> self.Some? && |payload| + |spare| < 2
    ensures self.Some? && |payload| < 2 <= |payload| + |spare| ==> r == Returned(Dropped)
    ensures self.Some? && |payload| >= 2 ==> r == Returned(ParseAnnounceFrame(payload, self.value))
  {
    if self.None? then Returned(Unavailable)
    else if |payload| < 2 then
      if |payload| + |spare| < 2 then Panicked
      // the ID length read through the capacity is at least 0, so the
      // test 2 + idLen + 2 > len(payload) always drops the frame
      else Returned(Dropped)
    else Returned(ParseAnnounceFrame(payload, self.value))
  }

  /** ServeBroadcast's parse with a payload too short for the ID length dropped like any other short frame. */
  function ParseAnnounce(payload: bytes, self: Option<bytes>): (r: Announcement)
    ensures self.None? ==> r == Unavailable
    ensures self.Some? && |payload| < 2 ==> r == Dropped
    ensures forall spare :: ParseAnnounceAsWritten(payload, spare, self).Returned? ==>
      r == ParseAnnounceAsWritten(payload, spare, self).value
  {
    if self.None? then Unavailable
    else if |payload| < 2 then Dropped
    else ParseAnnounceFrame(payload, self.value)
  }

  /**
   * The offset walk over a payload of at least two bytes. An announcement
   * is returned only for a payload that is exactly the frame of that ID and
   * address, and never for this node's own ID.
   */
  function ParseAnnounceFrame(payload: bytes, self: bytes): (r: Announcement)
    requires |payload| >= 2
    ensures r != Unavailable
    ensures r.Announced? ==> r.nodeId != self && payload == AnnounceFrame(r.nodeId, r.address)
  {
    var idLen := ReadBE16(payload);
    var next := 2 + idLen;
    if next + 2 > |payload| then Dropped
    else
      var nodeId := payload[2..next];
      if self == nodeId then Ignored
      else
        var addressLen := ReadBE16(payload[next..]);
        var end := next + 2 + addressLen;
        if end != |payload| then Dropped
        else
          var address := payload[next + 2..end];
          ReadBE16Inverse(payload);
          ReadBE16Inverse(payload[next..]);
          assert payload == payload[..2] + nodeId + payload[next..next + 2] + address;
          Announced(nodeId, address)
  }

  /** A frame built for another node parses back to its ID and address. */
  lemma AnnounceRoundTrip(nodeId: bytes, address: bytes, self: bytes)
    requires |nodeId| < U16 && |address| < U16 && nodeId != self
    ensures ParseAnnounce(AnnounceFrame(nodeId, address), Some(self)) == Announced(nodeId, address)
  {
    var frame := AnnounceFrame(nodeId, address);
    var next := 2 + |nodeId|;
    BE16RoundTrip(|nodeId|, nodeId + BE16(|address|) + address);
    assert frame == BE16(|nodeId|) + (nodeId + BE16(|address|) + address);
    assert frame[2..next] == nodeId;
    assert frame[next..] == BE16(|address|) + address;
    BE16RoundTrip(|address|, address);
    assert frame[next + 2..] == address;
  }

  /** A frame carrying this node's own ID is ignored, whatever the address. */
  lemma OwnAnnounceIgnored(self: bytes, address: bytes)
    requires |self| < U16 && |address| < U16
    ensures ParseAnnounce(AnnounceFrame(self, address), Some(self)) == Ignored
  {
    var frame := AnnounceFrame(self, address);
    BE16RoundTrip(|self|, self + BE16(|address|) + address);
    assert frame == BE16(|self|) + (self + BE16(|address|) + address);
    assert frame[2..2 + |self|] == self;
  }

  /**
   * A one-byte payload whose capacity is its length, such as []byte{7},
   * makes the parse as written panic; the corrected parse drops it, as the
   * code as written does when the backing array has room for two bytes.
   */
  lemma ShortAnnouncePanicsAsWritten(self: bytes, spare: bytes)
    requires |spare| >= 1
    ensures ParseAnnounceAsWritten([7], [], Some(self)) == Panicked
    ensures ParseAnnounceAsWritten([7], spare, Some(self)) == Returned(Dropped)
    ensures ParseAnnounce([7], Some(self)) == Dropped
  {
  }

  /** errors.Join's message: the messages one per line. */
  function JoinErrors(errs: seq<string>): string
    decreases |errs|
  {
    if errs == [] then ""
    else if |errs| == 1 then errs[0]
    else errs[0] + "\n" + JoinErrors(errs[1..])
  }

  /** The frames announced for each public address, in order. */
  function AnnounceFrames(nodeId: bytes, addresses: seq<bytes>): (frames: seq<bytes>)
    ensures |frames| == |addresses|
    ensures forall i :: 0 <= i < |addresses| ==> frames[i] == AnnounceFrame(nodeId, addresses[i])
  {
    seq(|addresses|, i requires 0 <= i < |addresses| => AnnounceFrame(nodeId, addresses[i]))
  }

  lemma AnnounceFramesSnoc(nodeId: bytes, addresses: seq<bytes>, k: nat)
    requires k < |addresses|
    ensures AnnounceFrames(nodeId, addresses[..k + 1]) ==
      AnnounceFrames(nodeId, addresses[..k]) + [AnnounceFrame(nodeId, addresses[k])]
  {
    var a := AnnounceFrames(nodeId, addresses[..k + 1]);
    var b := AnnounceFrames(nodeId, addresses[..k]) + [AnnounceFrame(nodeId, addresses[k])];
    assert |a| == |b|;
    forall i | 0 <= i < |a| ensures a[i] == b[i] {
      assert addresses[..k + 1][i] == addresses[i];
    }
  }

  /** The errors Deliver returns for the frames, in order. */
  function DeliveryErrors(frames: seq<bytes>, deliver: bytes -> Option<string>): (errs: seq<string>)
    ensures |errs| <= |frames|
    ensures (forall i :: 0 <= i < |frames| ==> deliver(frames[i]).None?) ==> errs == []
  {
    if frames == [] then []
    else
      var rest := DeliveryErrors(frames[1..], deliver);
      match deliver(frames[0])
      case Some(e) => [e] + rest
      case None => rest
  }

  lemma DeliveryErrorsSnoc(frames: seq<bytes>, frame: bytes, deliver: bytes -> Option<string>)
    ensures DeliveryErrors(frames + [frame], deliver) ==
      DeliveryErrors(frames, deliver) + (if deliver(frame).Some? then [deliver(frame).value] else [])
    decreases |frames|
  {
    if frames != [] {
      assert (frames + [frame])[1..] == frames[1..] + [frame];
      DeliveryErrorsSnoc(frames[1..], frame, deliver);
    }
  }

  /** The announce header for a node ID and an address length, in a buffer of the frame's size. */
  ghost predicate HeaderFor(buffer: bytes, offset: nat, nodeId: bytes)
  {
    && offset == 4 + |nodeId| && |buffer| >= offset
    && buffer[..offset] == BE16(Wrap(|nodeId|, U16)) + nodeId + BE16(Wrap(|buffer| - offset, U16))
  }

  /** The header written into a fresh zeroed frame buffer, step by step as deliverForBroadcast does. */
  method WriteHeader(nodeId: bytes, addressLen: nat) returns (buffer: bytes, offset: nat)
    ensures |buffer| == 4 + |nodeId| + addressLen
    ensures HeaderFor(buffer, offset, nodeId)
  {
    var bufferSize := 4 + |nodeId| + addressLen;
    buffer := ZeroBytes(bufferSize);
    buffer := BE16(Wrap(|nodeId|, U16)) + buffer[2..];
    buffer := buffer[..2] + nodeId + buffer[2 + |nodeId|..];
    offset := 2 + |nodeId|;
    buffer := buffer[..offset] + BE16(Wrap(addressLen, U16)) + buffer[offset + 2..];
    offset := offset + 2;
    assert buffer[..offset] == BE16(Wrap(|nodeId|, U16)) + nodeId + BE16(Wrap(|buffer| - offset, U16));
  }

  /** One pass of deliverForBroadcast's loop on the frame buffer: a new header when the size changes, then the address. */
  method FillFrame(buffer: bytes, offset: nat, nodeId: bytes, address: bytes) returns (frame: bytes, frameOffset: nat)
    requires buffer == [] || HeaderFor(buffer, offset, nodeId)
    ensures frame == AnnounceFrame(nodeId, address) && HeaderFor(frame, frameOffset, nodeId)
  {
    frame, frameOffset := buffer, offset;
    var bufferSize := 4 + |nodeId| + |address|;
    if |frame| != bufferSize {
      frame, frameOffset := WriteHeader(nodeId, |address|);
    }
    frame := frame[..frameOffset] + address + frame[frameOffset + |address|..];
    assert frame == AnnounceFrame(nodeId, address);
  }

  /**
   * deliverForBroadcast: without public addresses or available settings it
   * fails with ErrUnavailable and sends nothing; otherwise it hands each
   * address's announce frame to Deliver in order and joins the errors. The
   * frame buffer is reused when its size does not change; that is sound,
   * because an equal size means an equal address length and so an equal
   * header.
   */
  method DeliverForBroadcast(addresses: seq<bytes>, available: bool, nodeId: bytes, deliver: bytes -> Option<string>)
    returns (frames: seq<bytes>, err: Option<string>)
    ensures |addresses| == 0 || !available ==> frames == [] && err == Some(ErrUnavailable)
    ensures |addresses| > 0 && available ==> frames == AnnounceFrames(nodeId, addresses)
    ensures |addresses| > 0 && available ==>
      var errs := DeliveryErrors(frames, deliver); err == if errs == [] then None else Some(JoinErrors(errs))
  {
    frames := [];
    if |addresses| <= 0 || !available {
      return [], Some(ErrUnavailable);
    }
    var buffer: bytes := [];
    var offset: nat := 0;
    var errs: seq<string> := [];
    for k := 0 to |addresses|
      invariant buffer == [] || HeaderFor(buffer, offset, nodeId)
      invariant frames == AnnounceFrames(nodeId, addresses[..k])
      invariant errs == DeliveryErrors(frames, deliver)
    {
      var address := addresses[k];
      buffer, offset := FillFrame(buffer, offset, nodeId, address);
      DeliveryErrorsSnoc(frames, buffer, deliver);
      var e := deliver(buffer);
      if e.Some? {
        errs := errs + [e.value];
      }
      AnnounceFramesSnoc(nodeId, addresses, k);
      frames := frames + [buffer];
    }
    assert addresses[..|addresses|] == addresses;
    if |errs| <= 0 {
      return frames, None;
    }
    return frames, Some(JoinErrors(errs));
  }

  // ---------------------------------------------------------------------
  // Routes: reachable nodes kept in a slice sorted by route ID
  // ---------------------------------------------------------------------

  /** A route to a node: its ID is the node ID followed by the address bytes. */
  class QuicRoute {
    const nodeId: bytes
    const address: bytes
    const routeId: bytes
    const owner: QuicModule
    var failures: nat

    constructor (owner: QuicModule, nodeId: bytes, address: bytes)
      ensures this.owner == owner && this.nodeId == nodeId && this.address == address
      ensures routeId == RouteIdFor(nodeId, address) && failures == 0
    {
      this.owner := owner;
      this.nodeId := nodeId;
      this.address := address;
      this.routeId := RouteIdFor(nodeId, address);
      this.failures := 0;
    }

    /** Close: the route destroys itself in its module. */
    method Close()
      requires owner.Valid()
      modifies owner
      ensures owner.Valid() && owner.routes == Unlisted(old(owner.routes), this)
    {
      owner.DestroyRoute(this);
    }

    /**
     * Dial with the outcome of dialing (a connection handle or an error)
     * and of reading the peer's node ID: the failure counter and the route
     * list change as DialDecision says.
     */
    method Dial(dialed: Result<nat>, peerId: Result<bytes>) returns (conn: Option<nat>, err: Option<string>)
      requires owner.Valid()
      modifies this, owner
      ensures var d := DialDecision(old(failures), dialed, peerId, nodeId);
        && failures == d.failures && conn == d.conn && err == d.err
        && owner.Valid()
        && owner.routes == if d.close then Unlisted(old(owner.routes), this) else old(owner.routes)
    {
      if failures >= 3 {
        Close();
        return None, Some(ErrInvalidNode);
      }
      var mismatch := false;
      conn, err := None, None;
      match dialed {
        case Err(e) =>
          err := Some(e);
        case Ok(c) =>
          match peerId {
            case Err(e) =>
              err := Some(e);
            case Ok(id) =>
              if id != nodeId {
                mismatch := true;
                err := Some(ErrInvalidNode);
              } else {
                conn := Some(c);
              }
          }
      }
      if err.Some? {
        failures := Wrap(failures + 1, U8);
        if mismatch || failures >= 3 {
          Close();
          UnlistedTwice(old(owner.routes), this);
          if mismatch && failures >= 3 {
            Close();
          }
        }
      } else {
        failures := 0;
      }
    }
  }

  /** A route ID: node ID ++ address. */
  function RouteIdFor(nodeId: bytes, address: bytes): (routeId: bytes)
    ensures |routeId| == |nodeId| + |address|
    ensures routeId[..|nodeId|] == nodeId && routeId[|nodeId|..] == address
  {
    nodeId + address
  }

  function RouteIdOf(route: QuicRoute): bytes {
    route.routeId
  }

  /** The route list without the given route object (by identity); others keep their order. */
  function Unlisted(routes: seq<QuicRoute>, route: QuicRoute): (r: seq<QuicRoute>)
    ensures route !in routes ==> r == routes
  {
    if routes == [] then []
    else if routes[0] == route then routes[1..]
    else [routes[0]] + Unlisted(routes[1..], route)
  }

  /** In a list where the route sits at i and nowhere before, removing it is slices.Delete(i, i+1). */
  lemma {:induction false} UnlistedAt(routes: seq<QuicRoute>, route: QuicRoute, i: nat)
    requires i < |routes| && routes[i] == route && route !in routes[..i]
    ensures Unlisted(routes, route) == routes[..i] + routes[i + 1..]
  {
    if i > 0 {
      assert routes[0] != route by { assert routes[0] in routes[..i]; }
      assert routes[1..][..i - 1] == routes[..i][1..];
      UnlistedAt(routes[1..], route, i - 1);
      assert routes[..i] == [routes[0]] + routes[1..][..i - 1];
      assert routes[1..][i..] == routes[i + 1..];
    }
  }

  /** In a sorted list a route object occurs at most once, so removing it twice is removing it once. */
  lemma {:induction false} UnlistedTwice(routes: seq<QuicRoute>, route: QuicRoute)
    requires Sorted(routes, RouteIdOf, Compare)
    ensures Unlisted(Unlisted(routes, route), route) == Unlisted(routes, route)
  {
    if routes != [] {
      if routes[0] == route {
        forall j | 0 < j < |routes| ensures routes[j] != route {
          assert Compare(routes[0].routeId, routes[j].routeId) < 0;
        }
        assert route !in routes[1..];
      } else {
        UnlistedTwice(routes[1..], route);
      }
    }
  }

  /** The failure counter's next value and whether the route closes, for one Dial. */
  datatype DialOutcome = DialOutcome(failures: nat, close: bool, conn: Option<nat>, err: Option<string>)

  /**
   * Dial as intended: a route that failed three times closes and refuses;
   * a failed dial, an unreadable peer ID or a peer with another node ID
   * counts a failure (a mismatch also closes the route), and three
   * failures close it; a good dial resets the counter.
   */
  function DialDecision(failures: nat, dialed: Result<nat>, peerId: Result<bytes>, nodeId: bytes): (d: DialOutcome)
    ensures failures >= 3 ==> d == DialOutcome(failures, true, None, Some(ErrInvalidNode))
    ensures failures < 3 ==> (d.err.None? <==> dialed.Ok? && peerId == Ok(nodeId))
    ensures failures < 3 && d.err.None? ==> d == DialOutcome(0, false, Some(dialed.value), None)
    ensures failures < 3 && d.err.Some? ==>
      && d.failures == failures + 1 && d.conn == None
      && (d.close <==> d.failures >= 3 || (dialed.Ok? && peerId.Ok?))
    ensures d.failures <= 3 || d.failures == failures
  {
    if failures >= 3 then DialOutcome(failures, true, None, Some(ErrInvalidNode))
    else match dialed
      case Err(e) => DialOutcome(failures + 1, failures + 1 >= 3, None, Some(e))
      case Ok(c) =>
        match peerId
        case Err(e) => DialOutcome(failures + 1, failures + 1 >= 3, None, Some(e))
        case Ok(id) =>
          if id != nodeId then DialOutcome(failures + 1, true, None, Some(ErrInvalidNode))
          else DialOutcome(0, false, Some(c), None)
  }

  /**
   * Dial as written. The node ID read inside the success branch declares a
   * new err, and whenever it is non-nil the code sets conn to nil and
   * defers conn.CloseWithError: evaluating a method of a nil interface
   * panics there, before the failure is counted (the deferred Close of a
   * mismatched route still runs while the panic unwinds).
   */
  function DialAsWritten(failures: nat, dialed: Result<nat>, peerId: Result<bytes>, nodeId: bytes): (r: Completion<DialOutcome>)
    ensures r.Panicked? <==> failures < 3 && dialed.Ok? && peerId != Ok(nodeId)
  {
    if failures >= 3 then Returned(DialOutcome(failures, true, None, Some(ErrInvalidNode)))
    else match dialed
      case Err(e) =>
        var f := Wrap(failures + 1, U8);
        Returned(DialOutcome(f, f >= 3, None, Some(e)))
      case Ok(c) =>
        if peerId.Err? || peerId.value != nodeId then Panicked
        else Returned(DialOutcome(0, false, Some(c), None))
  }

  /** Where the code as written returns, it does what DialDecision says. */
  lemma DialAgrees(failures: nat, dialed: Result<nat>, peerId: Result<bytes>, nodeId: bytes)
    requires DialAsWritten(failures, dialed, peerId, nodeId).Returned?
    ensures DialAsWritten(failures, dialed, peerId, nodeId).value == DialDecision(failures, dialed, peerId, nodeId)
  {
  }

  /** A peer answering with another node ID crashes the dial as written instead of counting a failure. */
  lemma MismatchPanicsAsWritten()
    ensures DialAsWritten(0, Ok(1), Ok([2]), [1]) == Panicked
    ensures DialDecision(0, Ok(1), Ok([2]), [1]) == DialOutcome(1, true, None, Some(ErrInvalidNode))
  {
  }

  /** Starting from zero, the counter never passes 3 over any sequence of dials. */
  lemma {:induction false} FailuresBounded(failures: nat, dials: seq<(Result<nat>, Result<bytes>)>, nodeId: bytes)
    requires failures <= 3
    ensures DialsFrom(failures, dials, nodeId) <= 3
    decreases |dials|
  {
    if dials != [] {
      var d := DialDecision(failures, dials[0].0, dials[0].1, nodeId);
      FailuresBounded(d.failures, dials[1..], nodeId);
    }
  }

  /** The counter after a sequence of dials. */
  function DialsFrom(failures: nat, dials: seq<(Result<nat>, Result<bytes>)>, nodeId: bytes): nat
    decreases |dials|
  {
    if dials == [] then failures
    else DialsFrom(DialDecision(failures, dials[0].0, dials[0].1, nodeId).failures, dials[1..], nodeId)
  }

  /** The module's route list. */
  class QuicModule {
    var routes: seq<QuicRoute>

    ghost predicate Valid()
      reads this
    {
      Sorted(routes, RouteIdOf, Compare)
    }

    /** The route IDs held, in order. */
    function RouteIds(): (ids: seq<bytes>)
      reads this
      ensures |ids| == |routes| && forall i :: 0 <= i < |routes| ==> ids[i] == routes[i].routeId
    {
      Ids(routes)
    }

    constructor ()
      ensures Valid() && routes == []
    {
      routes := [];
    }

    /**
     * CreateRoute with the Control result as a parameter: an existing route
     * ID fails with ErrConflict and changes nothing; otherwise a new route
     * is inserted at its sorted position, also when Control failed, and
     * Control's error is returned with it.
     */
    method CreateRoute(nodeId: bytes, address: bytes, control: Option<string>) returns (route: Option<QuicRoute>, err: Option<string>)
      requires Valid()
      modifies this
      ensures Valid()
      ensures var id := RouteIdFor(nodeId, address);
        if id in old(RouteIds()) then route == None && err == Some(ErrConflict) && routes == old(routes)
        else
          && route.Some? && fresh(route.value) && err == control
          && route.value.routeId == id && route.value.nodeId == nodeId && route.value.address == address
          && route.value.owner == this && route.value.failures == 0
          && exists i :: 0 <= i <= |old(routes)| &&
               routes == old(routes)[..i] + [route.value] + old(routes)[i..] &&
               RouteIds() == old(RouteIds())[..i] + [id] + old(RouteIds())[i..]
    {
      var routeId := RouteIdFor(nodeId, address);
      var _, found := SearchRoute(routes, routeId);
      if found {
        return None, Some(ErrConflict);
      }
      var r := new QuicRoute(this, nodeId, address);
      var idx, _ := SearchRoute(routes, routeId);
      routes := InsertRoute(routes, idx, r);
      return Some(r), control;
    }

    /**
     * destroyRoute: from the first position whose route ID is not below
     * the route's, scan the routes with an equal ID and delete the one that
     * is this very object; any other route stays.
     */
    method DestroyRoute(route: QuicRoute)
      requires Valid()
      modifies this
      ensures Valid() && routes == Unlisted(old(routes), route)
    {
      routes := DestroyIn(routes, route);
    }
  }

  /** createRoute's slices.BinarySearchFunc: the ID is held, or the position where it belongs. */
  method SearchRoute(rs: seq<QuicRoute>, id: bytes) returns (idx: nat, found: bool)
    requires Sorted(rs, RouteIdOf, Compare)
    ensures found <==> id in Ids(rs)
    ensures !found ==> InsertionPoint(rs, RouteIdOf, Compare, id, idx)
  {
    CompareTotal();
    var r := BinarySearch(rs, id, RouteIdOf, Compare);
    LowerBoundSpec(rs, id);
    idx, found := r.0, r.1;
  }

  /** createRoute's slices.Insert at the insertion point: the list stays sorted and gains the route there. */
  method InsertRoute(rs: seq<QuicRoute>, idx: nat, r: QuicRoute) returns (out: seq<QuicRoute>)
    requires Sorted(rs, RouteIdOf, Compare) && InsertionPoint(rs, RouteIdOf, Compare, r.routeId, idx)
    ensures Sorted(out, RouteIdOf, Compare)
    ensures out == rs[..idx] + [r] + rs[idx..]
    ensures Ids(out) == Ids(rs)[..idx] + [r.routeId] + Ids(rs)[idx..]
  {
    CompareTotal();
    SortedStoreAt(rs, RouteIdOf, Compare, idx, r);
    IdsInsert(rs, idx, r);
    out := rs[..idx] + [r] + rs[idx..];
  }

  /** The body of destroyRoute on the route list as a value. */
  method DestroyIn(rs: seq<QuicRoute>, route: QuicRoute) returns (out: seq<QuicRoute>)
    requires Sorted(rs, RouteIdOf, Compare)
    ensures Sorted(out, RouteIdOf, Compare) && out == Unlisted(rs, route)
  {
    var found := BinarySearch(rs, route.routeId, RouteIdOf, Compare);
    RouteLowerBound(rs, route);
    if !found.1 {
      return rs;
    }
    var pos := ScanEqualIds(rs, route, found.0);
    if pos.Some? {
      UnlistedAt(rs, route, pos.value);
      SortedRemove(rs, RouteIdOf, Compare, pos.value);
      return Remove(rs, pos.value);
    }
    return rs;
  }

  /** Where destroyRoute's scan starts: at the lower bound of the route's ID, with the route nowhere before it; if the ID is not held, the route is not listed. */
  lemma RouteLowerBound(rs: seq<QuicRoute>, route: QuicRoute)
    requires Sorted(rs, RouteIdOf, Compare)
    ensures var found := BinarySearch(rs, route.routeId, RouteIdOf, Compare);
      && (!found.1 ==> route !in rs)
      && (found.1 ==> found.0 < |rs| && rs[found.0].routeId == route.routeId && route !in rs[..found.0])
  {
    CompareTotal();
    LowerBoundSpec(rs, route.routeId);
    var found := BinarySearch(rs, route.routeId, RouteIdOf, Compare);
    if !found.1 {
      NotListed(rs, route);
    } else {
      BelowNotRoute(rs, route, found.0);
    }
  }

  /** The scan of destroyRoute: the position of the route object among the routes sharing its ID from idx on. */
  method ScanEqualIds(rs: seq<QuicRoute>, route: QuicRoute, idx: nat) returns (pos: Option<nat>)
    requires Sorted(rs, RouteIdOf, Compare)
    requires idx < |rs| && rs[idx].routeId == route.routeId && route !in rs[..idx]
    ensures pos.Some? ==> pos.value < |rs| && rs[pos.value] == route && route !in rs[..pos.value]
    ensures pos.None? ==> route !in rs
  {
    var i := idx;
    while i < |rs|
      invariant idx <= i <= |rs|
      invariant route !in rs[..i]
      invariant i > idx ==> rs[i - 1].routeId == route.routeId
      decreases |rs| - i
    {
      var routeItem := rs[i];
      if routeItem == route {
        return Some(i);
      }
      if routeItem.routeId != route.routeId {
        AfterNotRoute(rs, route, i);
        return None;
      }
      PrefixGrows(rs, i);
      i := i + 1;
    }
    assert rs[..i] == rs;
    return None;
  }

  lemma PrefixGrows(rs: seq<QuicRoute>, i: nat)
    requires i < |rs|
    ensures forall x :: x in rs[..i + 1] ==> x in rs[..i] || x == rs[i]
  {
    assert rs[..i + 1] == rs[..i] + [rs[i]];
  }

  /** A route whose ID is not held is not in the list. */
  lemma NotListed(rs: seq<QuicRoute>, route: QuicRoute)
    requires route.routeId !in Ids(rs)
    ensures route !in rs
  {
  }

  function Ids(routes: seq<QuicRoute>): (ids: seq<bytes>)
    ensures |ids| == |routes| && forall i :: 0 <= i < |routes| ==> ids[i] == routes[i].routeId
  {
    seq(|routes|, i requires 0 <= i < |routes| => routes[i].routeId)
  }

  /** slices.BinarySearchFunc on a sorted route list: found exactly when the ID is held, at the lower bound. */
  lemma LowerBoundSpec(routes: seq<QuicRoute>, id: bytes)
    requires TotalOrder(Compare) && Sorted(routes, RouteIdOf, Compare)
    ensures BinarySearch(routes, id, RouteIdOf, Compare).1 <==> id in Ids(routes)
    ensures BinarySearch(routes, id, RouteIdOf, Compare).1 ==>
      routes[BinarySearch(routes, id, RouteIdOf, Compare).0].routeId == id
    ensures !BinarySearch(routes, id, RouteIdOf, Compare).1 ==>
      InsertionPoint(routes, RouteIdOf, Compare, id, BinarySearch(routes, id, RouteIdOf, Compare).0)
  {
    BinarySearchFinds(routes, id, RouteIdOf, Compare);
    IdsHeld(routes, id);
  }

  /** An ID is among the routes' IDs exactly when some route has it. */
  lemma IdsHeld(routes: seq<QuicRoute>, id: bytes)
    ensures id in Ids(routes) <==> exists i :: 0 <= i < |routes| && RouteIdOf(routes[i]) == id
  {
    if id in Ids(routes) {
      var i :| 0 <= i < |routes| && Ids(routes)[i] == id;
      assert RouteIdOf(routes[i]) == id;
    }
    if exists i :: 0 <= i < |routes| && RouteIdOf(routes[i]) == id {
      var i :| 0 <= i < |routes| && RouteIdOf(routes[i]) == id;
      assert Ids(routes)[i] == id;
    }
  }

  lemma IdsInsert(routes: seq<QuicRoute>, idx: nat, r: QuicRoute)
    requires idx <= |routes|
    ensures Ids(routes[..idx] + [r] + routes[idx..]) == Ids(routes)[..idx] + [r.routeId] + Ids(routes)[idx..]
  {
  }

  /** Before the lower bound of a route's ID, no route is that route. */
  lemma BelowNotRoute(routes: seq<QuicRoute>, route: QuicRoute, idx: nat)
    requires idx <= |routes| && forall j :: 0 <= j < idx ==> Compare(routes[j].routeId, route.routeId) < 0
    ensures route !in routes[..idx]
  {
  }

  /** Past the last route with the route's ID, the route is nowhere in a sorted list. */
  lemma AfterNotRoute(routes: seq<QuicRoute>, route: QuicRoute, i: nat)
    requires Sorted(routes, RouteIdOf, Compare)
    requires 0 < i < |routes| && route !in routes[..i]
    requires routes[i - 1].routeId == route.routeId && routes[i].routeId != route.routeId
    ensures route !in routes
  {
    forall j | i <= j < |routes| ensures routes[j] != route {
      assert Compare(routes[i - 1].routeId, routes[j].routeId) < 0;
    }
    assert routes == routes[..i] + routes[i..];
  }

}
