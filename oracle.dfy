/** The remote adamfs server, seen from the client: an oracle that turns its store and one
    request line into a new store and at most one response line. Every round-trip of the
    client opens a fresh connection, sends one line and reads one line. */
module Oracle {
  import opened Outcomes
  import opened Wire

  /** What the server keeps for a path. The client never looks inside; the server's answers
      are all it sees. */
  datatype Entry = FileEntry(content: seq<bv8>) | DirEntry

  type Store = map<string, Entry>

  /** The server's behaviour: its answer to a request line in a given store, and the store
      afterwards. None is a connection closed without an answer (readLine gives null). */
  type Serve = (Store, string) -> (Store, Option<string>)

  /** The server's store and every request line the client has sent, oldest first. */
  datatype World = World(store: Store, sent: seq<string>)

  /** The world after a step of the client, and what the step produced. */
  datatype Step<+T> = Step(world: World, result: T)

  /** One round-trip (init_send_get_close, or the send and read before a stream takes over the
      connection): the request line goes out and is logged; the server answers from its store. */
  function Exchange(serve: Serve, w: World, opcode: string, payload: string): Step<Option<string>>
  {
    var line := Request(opcode, payload);
    var answer := serve(w.store, line);
    Step(World(answer.0, w.sent + [line]), answer.1)
  }

  /** The server end of the client's connections, with the log of what was sent to it. */
  class Server {
    const serve: Serve
    var store: Store
    var sent: seq<string>

    function Now(): World
      reads this
    {
      World(store, sent)
    }

    constructor (serve: Serve, store: Store)
      ensures this.serve == serve && Now() == World(store, [])
    {
      this.serve := serve;
      this.store := store;
      this.sent := [];
    }

    /** Connect, send `opcode + payload` as one line, read one line back, disconnect. */
    method RoundTrip(opcode: string, payload: string) returns (response: Option<string>)
      modifies this
      ensures Step(Now(), response) == Exchange(serve, old(Now()), opcode, payload)
    {
      var line := Request(opcode, payload);
      var answer := serve(store, line);
      store, response := answer.0, answer.1;
      sent := sent + [line];
    }
  }
}
