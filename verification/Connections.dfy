/** The handlers of simple_server.cpp as they run: flags and buffers of a
    connection object, and the shared map, updated in place. */
module Connections {
  import opened Orders
  import opened Wire
  import opened SimpleServer

  /** The global map. */
  class Store {
    var data: Data

    constructor ()
      ensures data == map[]
    {
      data := map[];
    }
  }

  class Connection {
    var wantRead: bool
    var wantWrite: bool
    var wantClose: bool
    var incoming: Str
    var outgoing: Str

    ghost function State(): ConnState
      reads this
    {
      ConnState(wantRead, wantWrite, wantClose, incoming, outgoing)
    }

    constructor ()
      ensures State() == ACCEPTED
    {
      wantRead, wantWrite, wantClose, incoming, outgoing := true, false, false, [], [];
    }

    /** One request: taken from the input, carried out, answered into the output. */
    method TryOneRequest(store: Store) returns (more: bool)
      modifies this, store
      ensures more <==> NextFrame(old(incoming)).Ready?
      ensures more ==> |incoming| < |old(incoming)|
      ensures more ==> Serve(store.data, State()).data == Serve(old(store.data), old(State())).data
      ensures more ==> Serve(store.data, State()).conn == Serve(old(store.data), old(State())).conn
      ensures !more ==> store.data == Serve(old(store.data), old(State())).data
      ensures !more ==> State() == Serve(old(store.data), old(State())).conn
    {
      if |incoming| < 4 { return false; }
      var len := FromLe(incoming[..4]);
      if len > MAX_MSG {
        wantClose := true;
        return false;
      }
      if 4 + len > |incoming| { return false; }
      var request := incoming[4..4 + len];
      var (data', reply) := Respond(store.data, request);
      store.data := data';
      outgoing := outgoing + reply;
      incoming := incoming[4 + len..];
      wantWrite := true;
      more := true;
    }

    /** handle_read; `aborted` reports its first assertion, the second always holds. */
    method HandleReadable(store: Store, r: ReadResult) returns (aborted: bool)
      requires r.Bytes? ==> |incoming| + |r.data| <= MAX_MSG
      modifies this, store
      ensures var o := HandleRead(old(store.data), Link(old(State()), [], [], 0), r);
              aborted == o.aborted && store.data == o.data && State() == o.link.conn
    {
      if |incoming| >= MAX_MSG { return true; }
      aborted := false;
      var cap := MAX_MSG - |incoming|;
      match r {
        case NoData =>
        case Ended =>
          incoming := incoming + seq(cap, _ => 0);
          wantClose := true;
        case Bytes(b) =>
          incoming := incoming + b;
          assert |incoming| <= MAX_MSG;
          ServeAll(store);
      }
    }

    /** while (try_one_request(conn)) {} */
    method ServeAll(store: Store)
      modifies this, store
      ensures store.data == Serve(old(store.data), old(State())).data
      ensures State() == Serve(old(store.data), old(State())).conn
    {
      var more := true;
      while more
        invariant more ==> Serve(store.data, State()).data == Serve(old(store.data), old(State())).data
        invariant more ==> Serve(store.data, State()).conn == Serve(old(store.data), old(State())).conn
        invariant !more ==> store.data == Serve(old(store.data), old(State())).data
        invariant !more ==> State() == Serve(old(store.data), old(State())).conn
        decreases more, |incoming|
      {
        more := TryOneRequest(store);
      }
    }

    /** handle_write; `aborted` reports its assertion. */
    method HandleWritable(w: WriteResult) returns (aborted: bool, sent: Str)
      modifies this
      ensures var o := HandleWrite(Link(old(State()), [], [], 0), w);
              aborted == o.aborted && sent == o.link.sent && State() == o.link.conn
    {
      sent := [];
      if outgoing == [] { return true, []; }
      aborted := false;
      match w {
        case Busy =>
        case Broken => wantClose := true;
        case Took(limit) =>
          var n := if limit < |outgoing| then limit else |outgoing|;
          sent := outgoing[..n];
          outgoing := outgoing[n..];
          if outgoing == [] {
            wantRead := true;
            wantWrite := false;
          }
      }
    }
  }
}
