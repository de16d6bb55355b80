/** The SSE session registry of the Node backend: the `sseClients` map from a
    session id to the open response stream of that session, and `sendLog`, which
    writes an event to a session's stream and forgets the session once a write
    fails. A stream is named by a connection number; what has been written to the
    streams is kept as a log of deliveries. */
module Sessions {
  /** The `type` field of a log event. */
  datatype Kind = Info | Success | Warning | Error

  datatype Event = Event(kind: Kind, message: string)

  /** An event written to the stream of a connection. */
  datatype Delivery = Delivery(connection: nat, event: Event)

  /** The message sent to a session as soon as its stream is opened. */
  const ConnectedMessage: string := "✅ 已连接到日志服务器"

  class Registry {
    /** `sseClients`: the open stream of each session. */
    var clients: map<string, nat>
    /** Every event written so far, in order. */
    var written: seq<Delivery>

    constructor ()
      ensures clients == map[] && written == []
    {
      clients := map[];
      written := [];
    }

    /** `sendLog(sessionId, message, type)`; `writeFails` says whether writing to the
        session's stream throws. An unknown session changes nothing; a write that
        succeeds delivers the event to that session's stream; one that fails
        removes the session. */
    method SendLog(sessionId: string, message: string, kind: Kind, writeFails: bool)
      modifies this
      ensures sessionId !in old(clients) ==> clients == old(clients) && written == old(written)
      ensures sessionId in old(clients) && !writeFails ==>
        clients == old(clients) && written == old(written) + [Delivery(old(clients)[sessionId], Event(kind, message))]
      ensures sessionId in old(clients) && writeFails ==>
        clients == old(clients) - {sessionId} && written == old(written)
    {
      if sessionId in clients {
        var client := clients[sessionId];
        if writeFails {
          clients := clients - {sessionId};
        } else {
          written := written + [Delivery(client, Event(kind, message))];
        }
      }
    }

    /** Opening `/api/logs/:sessionId`: the stream replaces any earlier one of the
        session, then the connected message is sent to it. */
    method Open(sessionId: string, connection: nat, writeFails: bool)
      modifies this
      ensures !writeFails ==>
        clients == old(clients)[sessionId := connection] &&
        written == old(written) + [Delivery(connection, Event(Success, ConnectedMessage))]
      ensures writeFails ==> clients == old(clients) - {sessionId} && written == old(written)
    {
      clients := clients[sessionId := connection];
      SendLog(sessionId, ConnectedMessage, Success, writeFails);
    }

    /** The request's `close` event: the session is forgotten. */
    method Close(sessionId: string)
      modifies this
      ensures clients == old(clients) - {sessionId} && written == old(written)
    {
      clients := clients - {sessionId};
    }
  }

  /** Once a session is closed, or one of its writes failed, logging to it writes
      nothing until it is opened again; other sessions are unaffected. */
  method ClosedSessionIsSilent(r: Registry, sessionId: string, other: string, message: string)
    requires other != sessionId && other in r.clients
    modifies r
    ensures sessionId !in r.clients && other in r.clients
    ensures r.written == old(r.written) + [Delivery(old(r.clients)[other], Event(Info, message))]
  {
    r.Close(sessionId);
    r.SendLog(sessionId, message, Info, false);
    r.SendLog(other, message, Info, false);
  }

  /** Reopening a session sends to the new stream only. */
  method ReopenReplaces(r: Registry, sessionId: string, first: nat, second: nat, message: string)
    modifies r
    ensures r.clients == old(r.clients)[sessionId := second]
    ensures r.written == old(r.written) + [
      Delivery(first, Event(Success, ConnectedMessage)),
      Delivery(second, Event(Success, ConnectedMessage)),
      Delivery(second, Event(Warning, message))]
  {
    r.Open(sessionId, first, false);
    r.Open(sessionId, second, false);
    r.SendLog(sessionId, message, Warning, false);
  }
}
