/** The life of a request: accepting it from one connection after another, closing its streams, keeping or closing
    its connection. */
module Lifecycle {
  import opened Bytes
  import opened Pairs
  import opened Records
  import opened Demux
  import opened WriterSpec
  import opened Connection
  import opened Params
  import A = Accepting
  import R = Reader
  import W = Writer
  import Calls
  import S = Session

  /** A listening socket, as the connections it will hand out before it fails. */
  class Listener {
    var pending: seq<Connection>
    const errno: int            // what it fails with

    /** `OS_Accept`. */
    method Next() returns (c: Connection?)
      modifies this
      ensures old(pending) == [] ==> c == null && pending == []
      ensures old(pending) != [] ==> c == old(pending)[0] && pending == old(pending)[1..]
    {
      if pending == [] {
        return null;
      }
      c := pending[0];
      pending := pending[1..];
    }
  }

  /** What a connection offers: the bytes to come and how they end, and what has been sent on it. */
  datatype Offer = Offer(inbound: seq<byte>, readEnd: nat, wire: seq<byte>)

  ghost function OfferOf(c: Connection): Offer
    reads c
  {
    Offer(c.inbound, c.readEnd, c.wire)
  }

  ghost function OffersOf(line: seq<Connection>): (os: seq<Offer>)
    reads line
    ensures |os| == |line|
  {
    seq(|line|, i requires 0 <= i < |line| reads line => OfferOf(line[i]))
  }

  ghost function FailuresOf(line: seq<Connection>): (fs: seq<nat>)
    reads line
    ensures |fs| == |line|
  {
    seq(|line|, i requires 0 <= i < |line| reads line => line[i].failures)
  }

  function LineOf(current: Connection?, pending: seq<Connection>): seq<Connection> {
    (if current == null then [] else [current]) + pending
  }

  /** A reader that starts on a connection, with what the connection before it has left in the request. */
  function StartOf(offer: Offer, stale: Demux.Request): (s: Rd)
    ensures !s.closed
  {
    A.Start(offer.inbound, offer.readEnd, stale, offer.wire)
  }

  /** The outcome of waiting for a request on a line of connections; `left` of them have not been touched. */
  datatype Search = Nobody | Served(left: nat, entries: seq<seq<byte>>, reader: Rd)

  /** The connections are tried in turn. */
  function FirstRequest(offers: seq<Offer>, stale: Demux.Request): Search {
    if offers == [] then Nobody
    else
      match A.Accept(StartOf(offers[0], stale))
      case Accepted(entries, reader) => Served(|offers| - 1, entries, reader)
      case GivenUp => FirstRequest(offers[1..], Fill(StartOf(offers[0], stale)).req)
  }

  /** What a connection finds in the request when all in front of it have been given up. */
  function StaleAt(offers: seq<Offer>, i: nat, stale: Demux.Request): Demux.Request
    requires i <= |offers|
  {
    if i == 0 then stale else StaleAt(offers[1..], i - 1, Fill(StartOf(offers[0], stale)).req)
  }

  /** What the i-th connection alone comes to. */
  function OutcomeAt(offers: seq<Offer>, i: nat, stale: Demux.Request): A.Outcome
    requires i < |offers|
  {
    A.Accept(StartOf(offers[i], StaleAt(offers, i, stale)))
  }

  /** The request is that of the first connection in line that offers one; there is none exactly when all are given
      up. */
  lemma {:induction false} FirstRequestIs(offers: seq<Offer>, stale: Demux.Request, i: nat)
    ensures FirstRequest(offers, stale).Nobody? <==>
              forall j | 0 <= j < |offers| :: OutcomeAt(offers, j, stale).GivenUp?
    ensures i < |offers| && (forall j | 0 <= j < i :: OutcomeAt(offers, j, stale).GivenUp?)
            && OutcomeAt(offers, i, stale).Accepted? ==>
              FirstRequest(offers, stale)
              == Served(|offers| - 1 - i, OutcomeAt(offers, i, stale).entries, OutcomeAt(offers, i, stale).reader)
    decreases |offers|
  {
    hide A.Accept, Fill, StartOf;
    if offers != [] {
      var next, tail := Fill(StartOf(offers[0], stale)).req, offers[1..];
      FirstRequestIs(tail, next, if i == 0 then 0 else i - 1);
      assert forall j | 0 <= j < |tail| :: OutcomeAt(tail, j, next) == OutcomeAt(offers, j + 1, stale);
      assert forall j | 0 < j < |offers| :: OutcomeAt(offers, j, stale) == OutcomeAt(tail, j - 1, next);
      assert OutcomeAt(offers, 0, stale) == A.Accept(StartOf(offers[0], stale));
    }
  }

  /** What a program may call between and during requests. */
  datatype Call =
    | Accept
    | Finish
    | Get(n: int)
    | StartData
    | Put(onErr: bool, bs: seq<byte>)
    | Flush(onErr: bool)
    | Close(onErr: bool)

  class Request {
    const listener: Listener
    const state: RequestState
    var input: R.Reader?
    var out: W.Writer?
    var err: W.Writer?
    var params: ParamVector?
    var ipcFd: Connection?      // null when there is no connection

    /** Connections are handed out once, open. */
    ghost predicate Connected()
      reads this, listener, listener.pending, if ipcFd == null then {} else {ipcFd}
    {
      && (forall i, j | 0 <= i < j < |listener.pending| :: listener.pending[i] != listener.pending[j])
      && (forall c | c in listener.pending :: c.isOpen)
      && (ipcFd != null ==> ipcFd.isOpen && ipcFd !in listener.pending)
    }

    /** The connections that are tried next: the current one, if any, and those still to be handed out. */
    ghost function Line(): seq<Connection>
      reads this, listener
    {
      LineOf(ipcFd, listener.pending)
    }

    ghost predicate Idle()
      reads this
    {
      input == null && out == null && err == null && params == null
    }

    /** A request has been accepted and is being served. */
    ghost predicate Serving()
      reads this, state, if ipcFd == null then {} else {ipcFd}
      reads if input == null then {} else {input, input.conn, input.mBuff}
      reads if out == null then {} else {out, out.conn, out.req, out.mBuff}
      reads if err == null then {} else {err, err.conn, err.req, err.mBuff}
      reads if params == null then {} else {params, params.vec}
    {
      && input != null && out != null && err != null && params != null && ipcFd != null
      && input.conn == ipcFd && input.req == state && input.Valid() && input.Ungettable()
      && out.conn == ipcFd && out.req == state && out.typ == STDOUT
      && err.conn == ipcFd && err.req == state && err.typ == STDERR
      && (input.bufflen == 8192 || input.bufflen == 8184)
      && Calls.Pair(out, err) && input.mBuff != out.mBuff && input.mBuff != err.mBuff
      && state.isBeginProcessed && params.Valid()
      && state.nWriters == (if out.wasFCloseCalled then 0 else 1) + (if err.wasFCloseCalled then 0 else 1)
    }

    /** `FCGX_InitRequest`. */
    constructor (listener: Listener)
      requires forall i, j | 0 <= i < j < |listener.pending| :: listener.pending[i] != listener.pending[j]
      requires forall c | c in listener.pending :: c.isOpen
      ensures this.listener == listener && fresh(state) && Connected() && Idle() && ipcFd == null
      ensures !state.keepConnection && state.nWriters == 0
    {
      this.listener := listener;
      state := new RequestState();
      input, out, err, params, ipcFd := null, null, null, null, null;
    }

    /** `FCGX_Free`. */
    method Free(close: bool)
      requires Connected()
      modifies this`input, this`out, this`err, this`params, this`ipcFd
      modifies if ipcFd == null then {} else {ipcFd}`isOpen
      ensures Connected() && Idle()
      ensures ipcFd == if close then null else old(ipcFd)
      ensures old(ipcFd) != null ==> old(ipcFd).isOpen == !close
    {
      input, out, err, params := null, null, null, null;
      if close {
        if ipcFd != null {
          ipcFd.Close();
        }
        ipcFd := null;
      }
    }

    /** What closing the streams that are still open sends, the error stream first. */
    ghost function Closing(): seq<byte>
      requires Serving()
      reads this, state, if ipcFd == null then {} else {ipcFd}
      reads if input == null then {} else {input, input.conn, input.mBuff}
      reads if out == null then {} else {out, out.conn, out.req, out.mBuff}
      reads if err == null then {} else {err, err.conn, err.req, err.mBuff}
      reads if params == null then {} else {params, params.vec}
    {
      var n, e, o := state.nWriters, err.Abs(), out.Abs();
      EncodeAll(S.Write(e, S.CloseNow, n, state.appStatus).1)
      + EncodeAll(S.Write(o, S.CloseNow, n - S.Closing(e, S.CloseNow), state.appStatus).1)
    }

    /** `FCGX_Finish_r`. */
    method Finish()
      requires Connected() && (Idle() || Serving())
      modifies this, state`nWriters
      modifies if ipcFd == null then {} else {ipcFd}
      modifies if out == null then {} else {out, out.mBuff}
      modifies if err == null then {} else {err, err.mBuff}
      ensures Connected() && Idle() && (old(input) != null ==> old(out) != null && old(err) != null)
      // The connection is kept exactly when it may be and no stream has failed.
      ensures old(ipcFd) != null ==> old(ipcFd).isOpen == (ipcFd != null) && (ipcFd == null || ipcFd == old(ipcFd))
      ensures old(ipcFd) == null ==> ipcFd == null
      ensures old(input) == null && old(ipcFd) != null ==> (ipcFd != null <==> state.keepConnection)
      ensures old(input) != null ==>
                (ipcFd != null <==>
                   state.keepConnection && old(input).errno == 0 && old(out).errno == 0 && old(err).errno == 0)
      ensures old(input) == null ==> state.nWriters == old(state.nWriters)
      ensures old(input) != null ==> state.nWriters == 0 && old(out).wasFCloseCalled && old(err).wasFCloseCalled
      // The streams the application has left open are closed, the error stream first.
      ensures old(input) != null && old(ipcFd).failures == old(ipcFd.failures) &&
              old(Unfailed(out) && Unfailed(err)) ==>
                old(ipcFd).wire == old(ipcFd.wire) + old(Closing())
      ensures old(ipcFd) != null ==> old(ipcFd).inbound == old(ipcFd.inbound)
      ensures OffersOf(listener.pending) == old(OffersOf(listener.pending))
      ensures FailuresOf(listener.pending) == old(FailuresOf(listener.pending))
      ensures old(input) == null && old(ipcFd) != null ==>
                old(ipcFd).wire == old(ipcFd.wire) && old(ipcFd).failures == old(ipcFd.failures)
      ensures old(input) != null && ipcFd != null ==>
                ipcFd.failures == old(ipcFd.failures) && old(Unfailed(out) && Unfailed(err))
    {
      hide EncodeAll, S.Write, S.Closing, W.Writer.Abs;
      var close := !state.keepConnection;
      if input != null {
        var e := Close(err, out);
        var o := Close(out, err);
        close := close || e != 0 || o != 0 || input.errno != 0;
      }
      Free(close);
    }

    /** A writer that is closed, if at all, because the application has closed it. */
    ghost predicate Unfailed(w: W.Writer)
      reads w
    {
      w.isClosed == w.wasFCloseCalled
    }

    /** `FCGX_FClose` on one of the writers, beside the other. */
    method Close(w: W.Writer, ghost other: W.Writer) returns (r: int)
      requires Calls.Pair(w, other)
      modifies w, w.mBuff, w.req`nWriters, w.conn`wire, w.conn`failures, w.conn`errors, w.conn`errno
      ensures Calls.Pair(w, other) && w.wasFCloseCalled && w.conn.failures >= old(w.conn.failures)
      ensures other.Abs() == old(other.Abs())
      ensures w.conn.failures == old(w.conn.failures) ==> w.errno == old(w.errno)
      ensures w.conn.failures != old(w.conn.failures) ==> w.errno != 0
      ensures r == (if w.errno == 0 then 0 else EOF)
      ensures w.req.nWriters == old(w.req.nWriters) - (if old(w.wasFCloseCalled) then 0 else 1)
      ensures w.conn.failures == old(w.conn.failures) && old(Unfailed(w)) ==>
                && w.conn.wire == old(w.conn.wire) +
                     EncodeAll(S.Write(old(w.Abs()), S.CloseNow, old(w.req.nWriters), w.req.appStatus).1)
                && w.req.nWriters == old(w.req.nWriters) - S.Closing(old(w.Abs()), S.CloseNow)
    {
      hide EncodeAll, CloseRecords;
      W.WireUnchanged(w.conn.wire);
      r := w.FClose();
    }

    /** Reads the begin record and the parameters from the open connection: one turn of the loop of
        `FCGX_Accept_r`. On success `start` is the state the new reader began with. */
    method TryConnection() returns (accepted: bool, ghost start: Rd)
      requires Connected() && Idle() && ipcFd != null
      modifies this`input, this`params
      modifies state`requestId, state`role, state`keepConnection, state`isBeginProcessed
      modifies ipcFd`inbound, ipcFd`wire, ipcFd`failures, ipcFd`errors, ipcFd`errno
      ensures ipcFd == old(ipcFd) && Connected() && out == null && err == null
      ensures start == A.Start(old(ipcFd.inbound), ipcFd.readEnd, old(state.Info()), old(ipcFd.wire))
      ensures ipcFd.failures == old(ipcFd.failures) ==>
                (accepted <==> A.Accept(start).Accepted?) && state.Info() == Fill(start).req
      ensures accepted ==>
                && input != null && fresh(input) && fresh(input.mBuff)
                && params != null && fresh(params) && fresh(params.vec)
                && input.conn == ipcFd && input.req == state && input.Valid() && params.Valid()
                && state.isBeginProcessed && (input.bufflen == 8192 || input.bufflen == 8184)
                && (ipcFd.failures == old(ipcFd.failures) ==>
                      && params.Contents() == A.Accept(start).entries
                      && SetType(input.Abs(), STDIN) == A.Accept(start).reader)
    {
      hide Fill, Drain, ParsePairs;
      state.isBeginProcessed := false;
      start := A.Start(ipcFd.inbound, ipcFd.readEnd, state.Info(), ipcFd.wire);
      var address: nat := *;
      UsableOfRequested(8192, address);
      var reader := new R.Reader(state, ipcFd, 8192, 0, address);
      input := reader;
      reader.FillBuffProc();
      if !state.isBeginProcessed {
        return false, start;
      }
      var role := A.RoleEntry(state.role);
      if role == None {
        return false, start;
      }
      ghost var begin := reader.Abs();
      accepted := ReadEnvironment(reader, role.value);
      assert ipcFd.failures == old(ipcFd.failures) ==> begin == Fill(start);
    }

    /** The second half of a turn: a new vector with the role, then the parameters. */
    method ReadEnvironment(reader: R.Reader, role: seq<byte>) returns (ok: bool)
      requires reader == input && reader.conn == ipcFd && reader.req == state
      requires reader.Valid() && state.isBeginProcessed
      modifies this`params, reader, reader.mBuff
      modifies state`requestId, state`role, state`keepConnection, state`isBeginProcessed
      modifies reader.conn`inbound, reader.conn`wire, reader.conn`failures, reader.conn`errors, reader.conn`errno
      ensures params != null && fresh(params) && fresh(params.vec) && params.Valid()
      ensures reader.Valid() && state.Info() == old(state.Info())
      ensures reader.conn.failures >= old(reader.conn.failures)
      ensures reader.conn.failures == old(reader.conn.failures) ==>
                var (bs, end) := Drain(SetType(old(reader.Abs()), PARAMS));
                && ok == ParsePairs(bs).complete
                && (ok ==> params.Contents() == [role] + Entries(ParsePairs(bs).pairs) && reader.Abs() == end)
    {
      hide Drain, ParsePairs, Entries, R.Reader.Abs;
      var vector := new ParamVector(30);
      params := vector;
      vector.Put(role);
      assert vector.Contents() == [role];
      reader.SetReaderType(PARAMS);
      var status := reader.ReadParams(vector);
      ok := status >= 0;
    }

    /** A request has been read; its writers are still to be made. */
    ghost predicate Reading()
      reads this, state, if ipcFd == null then {} else {ipcFd}
      reads if input == null then {} else {input, input.conn, input.mBuff}
      reads if params == null then {} else {params, params.vec}
    {
      && input != null && params != null && ipcFd != null && out == null && err == null
      && input.conn == ipcFd && input.req == state && input.Valid() && params.Valid() && state.isBeginProcessed
      && (input.bufflen == 8192 || input.bufflen == 8184)
    }

    /** What has been read is the outcome of accepting from `start`. */
    ghost predicate AsAccepted(start: Rd)
      requires Reading() && !start.closed
      reads this, state, if ipcFd == null then {} else {ipcFd}
      reads if input == null then {} else {input, input.conn, input.mBuff}
      reads if params == null then {} else {params, params.vec}
    {
      && A.Accept(start).Accepted?
      && params.Contents() == A.Accept(start).entries
      && SetType(input.Abs(), STDIN) == A.Accept(start).reader
    }

    /** No write has failed on these connections. */
    twostate predicate Quiet(line: seq<Connection>)
      reads line
    {
      FailuresOf(line) == old(FailuresOf(line))
    }

    twostate predicate QuietAt(line: seq<Connection>, j: nat)
      requires j < |line|
      reads line
    {
      FailuresOf(line)[j] == old(FailuresOf(line))[j]
    }

    /** What has been read is what waiting for a request comes to. */
    ghost predicate AsServed(search: Search)
      requires Reading()
      reads this, state, listener, if ipcFd == null then {} else {ipcFd}
      reads if input == null then {} else {input, input.conn, input.mBuff}
      reads if params == null then {} else {params, params.vec}
    {
      && search.Served? && search.left == |listener.pending|
      && params.Contents() == search.entries && SetType(input.Abs(), STDIN) == search.reader
    }

    /** The loop of `FCGX_Accept_r`: connection after connection until one yields a request. Unless a write fails, it
        is the first in line that offers one; in any case it is one that does, and it is read as it should be. */
    method FindRequest() returns (found: bool, ghost stale: Demux.Request, ghost k: nat)
      requires Connected() && Idle()
      modifies this`input, this`out, this`err, this`params, this`ipcFd, state, listener, listener.pending
      modifies if ipcFd == null then {} else {ipcFd}
      ensures Connected() && out == null && err == null
      ensures !found ==> Idle() && ipcFd == null && listener.pending == []
      ensures !found ==> state.nWriters == old(state.nWriters)
      ensures k <= |old(listener.pending)| && listener.pending == old(listener.pending)[k..]
      ensures forall c | c in old(listener.pending)[..k] && c != ipcFd :: !c.isOpen
      ensures old(ipcFd) != null && ipcFd != old(ipcFd) ==> !old(ipcFd).isOpen
      ensures ipcFd == null || ipcFd == old(ipcFd) || ipcFd in old(listener.pending)[..k]
      ensures found ==> Reading() && fresh(input) && fresh(input.mBuff) && fresh(params) && fresh(params.vec)
      ensures found ==>
                var j := |old(Line())| - |listener.pending| - 1;
                && 0 <= j && ipcFd == old(Line())[j]
                && (QuietAt(old(Line()), j) ==> AsAccepted(StartOf(old(OffersOf(Line()))[j], stale)))
      ensures Quiet(old(Line())) ==>
                var search := FirstRequest(old(OffersOf(Line())), old(state.Info()));
                if found then AsServed(search) else search.Nobody?
    {
      hide Reading, AsAccepted, AsServed, FirstRequest, StartOf, Waiting, Found, QuietUpTo;
      hide OffersOf, FailuresOf, Line, LineOf;
      ghost var line, info, j := Line(), state.Info(), 0;
      ghost var offers, failures := OffersOf(line), FailuresOf(line);
      k, found, stale := 0, false, info;
      WaitingStarts();
      while !found
        invariant Connected() && out == null && err == null && (!found ==> Idle())
        invariant state.nWriters == old(state.nWriters)
        invariant k <= |old(listener.pending)| && listener.pending == old(listener.pending)[k..]
        invariant forall c | c in old(listener.pending)[..k] && c != ipcFd :: !c.isOpen
        invariant ipcFd == null || ipcFd == old(ipcFd) || ipcFd in old(listener.pending)[..k]
        invariant old(ipcFd) != null && ipcFd != old(ipcFd) ==> !old(ipcFd).isOpen
        invariant !found ==> Waiting(line, offers, failures, info, j)
        invariant found ==>
                    && ipcFd != null && input != null && params != null && Reading()
                    && fresh(input) && fresh(input.mBuff) && fresh(params) && fresh(params.vec)
                    && Found(line, offers, failures, info, j, stale)
        decreases |listener.pending|, ipcFd != null, !found
      {
        if ipcFd == null {
          var any := TakeNext(line, offers, failures, info, j);
          if !any {
            QuietMeans(line, failures);
            return;
          }
          k := k + 1;
        }
        stale := state.Info();
        found := TryNth(line, offers, failures, info, j);
        if !found {
          j := j + 1;
        }
      }
      FoundMeans(line, offers, failures, info, j, stale);
    }

    /** No write has failed on the first `j` of these connections. */
    ghost predicate QuietUpTo(line: seq<Connection>, failures: seq<nat>, j: nat)
      requires j <= |line| == |failures|
      reads line
    {
      forall i | 0 <= i < j :: line[i].failures == failures[i]
    }

    /** Of a line of connections the first `j` have been given up, and the others have not been touched. */
    ghost predicate Waiting(line: seq<Connection>, offers: seq<Offer>, failures: seq<nat>, info: Demux.Request, j: nat)
      reads this, listener, state, line
    {
      && j <= |line| == |offers| == |failures| && Line() == line[j..]
      && (forall i, k | 0 <= i < k < |line| :: line[i] != line[k])
      && (forall i | j <= i < |line| :: OfferOf(line[i]) == offers[i] && line[i].failures == failures[i])
      && (QuietUpTo(line, failures, j) ==> FirstRequest(offers, info) == FirstRequest(offers[j..], state.Info()))
    }

    /** The next one has yielded a request. */
    ghost predicate Found(line: seq<Connection>, offers: seq<Offer>, failures: seq<nat>, info: Demux.Request, j: nat,
                          stale: Demux.Request)
      requires Reading()
      reads this, listener, state, line, if ipcFd == null then {} else {ipcFd}
      reads if input == null then {} else {input, input.conn, input.mBuff}
      reads if params == null then {} else {params, params.vec}
    {
      && j < |line| == |offers| == |failures| && ipcFd == line[j] && listener.pending == line[j + 1..]
      && (line[j].failures == failures[j] ==> AsAccepted(StartOf(offers[j], stale)))
      && (QuietUpTo(line, failures, j + 1) ==> AsServed(FirstRequest(offers, info)))
    }

    lemma QuietMeans(line: seq<Connection>, failures: seq<nat>)
      ensures FailuresOf(line) == failures ==> QuietUpTo(line, failures, |line|)
    {
      assert forall i | 0 <= i < |line| :: FailuresOf(line)[i] == line[i].failures;
    }

    lemma WaitingStarts()
      requires Connected()
      ensures Waiting(Line(), OffersOf(Line()), FailuresOf(Line()), state.Info(), 0)
    {
      var line := Line();
      assert line[0..] == line && OffersOf(line)[0..] == OffersOf(line);
    }

    lemma FoundMeans(line: seq<Connection>, offers: seq<Offer>, failures: seq<nat>, info: Demux.Request, j: nat,
                     stale: Demux.Request)
      requires Reading() && Found(line, offers, failures, info, j, stale)
      ensures j == |line| - |listener.pending| - 1 && ipcFd == line[j]
      ensures FailuresOf(line)[j] == failures[j] ==> AsAccepted(StartOf(offers[j], stale))
      ensures FailuresOf(line) == failures ==> AsServed(FirstRequest(offers, info))
    {
      hide AsAccepted, AsServed, FirstRequest, StartOf, Reading;
      QuietMeans(line, failures);
    }

    /** Takes the next connection from the listener. */
    method TakeNext(ghost line: seq<Connection>, ghost offers: seq<Offer>, ghost failures: seq<nat>,
                    ghost info: Demux.Request, ghost j: nat) returns (any: bool)
      requires Connected() && Idle() && ipcFd == null && Waiting(line, offers, failures, info, j)
      modifies this`ipcFd, listener
      ensures Connected() && Idle() && any == (ipcFd != null)
      ensures any ==>
                && old(listener.pending) != []
                && ipcFd == old(listener.pending)[0] && listener.pending == old(listener.pending)[1..]
      ensures any ==> Waiting(line, offers, failures, info, j)
      ensures !any ==>
                && old(listener.pending) == [] == listener.pending && |line| == |failures|
                && (QuietUpTo(line, failures, |line|) ==> FirstRequest(offers, info).Nobody?)
    {
      hide FirstRequest;
      ipcFd := listener.Next();
      any := ipcFd != null;
      if !any {
        assert offers[j..] == [];
        NobodyInLine(state.Info());
      } else {
        assert Line() == old(Line());
      }
    }

    lemma ServesFirst(offers: seq<Offer>, j: nat, stale: Demux.Request)
      requires j < |offers| && Reading() && AsAccepted(StartOf(offers[j], stale))
      requires |listener.pending| == |offers| - j - 1
      ensures AsServed(FirstRequest(offers[j..], stale))
    {
      hide A.Accept, Reading;
      Turn(offers, j, stale);
    }

    /** One turn, with its account. */
    method TryNth(ghost line: seq<Connection>, ghost offers: seq<Offer>, ghost failures: seq<nat>,
                  ghost info: Demux.Request, ghost j: nat) returns (found: bool)
      requires Connected() && Idle() && ipcFd != null && Waiting(line, offers, failures, info, j)
      modifies this`input, this`out, this`err, this`params, this`ipcFd, ipcFd
      modifies state`requestId, state`role, state`keepConnection, state`isBeginProcessed
      ensures Connected() && out == null && err == null
      ensures !found ==> Idle() && ipcFd == null && !old(ipcFd).isOpen
      ensures !found ==> Waiting(line, offers, failures, info, j + 1)
      ensures found ==>
                && ipcFd == old(ipcFd) && Reading() && fresh(input) && fresh(input.mBuff)
                && fresh(params) && fresh(params.vec)
                && Found(line, offers, failures, info, j, old(state.Info()))
    {
      hide A.Accept, R.Reader.Abs, Fill, FirstRequest, StartOf, Reading, AsAccepted, AsServed;
      assert ipcFd == Line()[0] == line[j] && listener.pending == Line()[1..] == line[j + 1..];
      ghost var stale := state.Info();
      Turn(offers, j, stale);
      found := TryNext();
      if found && AsAccepted(StartOf(offers[j], stale)) {
        ServesFirst(offers, j, stale);
      }
    }

    lemma NobodyInLine(stale: Demux.Request)
      ensures FirstRequest([], stale).Nobody?
    {
    }

    /** One connection in line. */
    lemma Turn(offers: seq<Offer>, j: nat, stale: Demux.Request)
      ensures j < |offers| ==>
                var start := StartOf(offers[j], stale);
                match A.Accept(start)
                case Accepted(entries, reader) =>
                  FirstRequest(offers[j..], stale) == Served(|offers| - j - 1, entries, reader)
                case GivenUp => FirstRequest(offers[j..], stale) == FirstRequest(offers[j + 1..], Fill(start).req)
    {
      hide A.Accept, Fill;
      if j < |offers| {
        assert offers[j..][1..] == offers[j + 1..];
      }
    }

    /** One turn, which closes the connection when it is given up. */
    method TryNext() returns (found: bool)
      requires Connected() && Idle() && ipcFd != null
      modifies this`input, this`out, this`err, this`params, this`ipcFd, ipcFd
      modifies state`requestId, state`role, state`keepConnection, state`isBeginProcessed
      ensures Connected() && out == null && err == null
      ensures !found ==> Idle() && ipcFd == null && !old(ipcFd).isOpen
      ensures found ==>
                && ipcFd == old(ipcFd) && Reading() && fresh(input) && fresh(input.mBuff)
                && fresh(params) && fresh(params.vec)
      ensures old(ipcFd).failures == old(ipcFd.failures) ==>
                var start := StartOf(old(OfferOf(ipcFd)), old(state.Info()));
                if found then AsAccepted(start) else A.Accept(start).GivenUp? && state.Info() == Fill(start).req
    {
      hide A.Accept, R.Reader.Abs, Fill;
      ghost var start;
      found, start := TryConnection();
      if !found {
        Free(true);
      }
    }

    /** The buffers of the writers have the sizes asked for, less eight where the allocator does not align them. */
    ghost predicate Roomy()
      reads this
    {
      && out != null && (out.bufflen == 8192 || out.bufflen == 8184)
      && err != null && (err.bufflen == 512 || err.bufflen == 504)
    }

    /** The end of `FCGX_Accept_r`: makes the two writers. */
    method MakeWriters()
      requires Connected() && Reading() && input.Ungettable()
      modifies this`out, this`err, state`nWriters
      ensures Connected() && Serving()
      ensures fresh(out) && fresh(out.mBuff) && fresh(err) && fresh(err.mBuff)
      ensures state.nWriters == 2 && !out.isClosed && !err.isClosed && out.errno == 0 && err.errno == 0
      ensures out.Abs() == Wr(STDOUT, state.requestId, out.bufflen - HEADER_LEN, [], false, false)
      ensures err.Abs() == Wr(STDERR, state.requestId, err.bufflen - HEADER_LEN, [], false, false)
      ensures Roomy()
      ensures input == old(input) && input.Abs() == old(input.Abs())
      ensures params == old(params) && params.Contents() == old(params.Contents())
    {
      hide W.Writer.Abs, R.Reader.Abs;
      var outAt: nat, errAt: nat := *, *;
      var o := new W.Writer(state, ipcFd, 8192, STDOUT, outAt);
      var e := new W.Writer(state, ipcFd, 512, STDERR, errAt);
      out, err := o, e;
      state.nWriters := 2;
      UsableOfRequested(8192, outAt);
      UsableOfRequested(512, errAt);
      NothingPut(o);
      NothingPut(e);
      ReaderRests(input);
    }

    /** A reader does not notice how many writers there are. */
    twostate lemma ReaderRests(reader: R.Reader)
      requires old(reader.Valid()) && reader.Valid() && unchanged(reader) && unchanged(reader.mBuff)
      requires unchanged(reader.conn) && reader.req.Info() == old(reader.req.Info())
      ensures reader.Abs() == old(reader.Abs())
    {
    }

    lemma NothingPut(w: W.Writer)
      requires w.Valid() && !w.rawWrite && w.wrNext == w.buff + HEADER_LEN
      ensures w.Abs() == Wr(w.typ, w.req.requestId, w.bufflen - HEADER_LEN, [], w.isClosed, w.isAnythingWritten)
    {
    }

    /** The request being served is the outcome of accepting. */
    ghost predicate AsRead(outcome: A.Outcome)
      requires Serving()
      reads this, state, if ipcFd == null then {} else {ipcFd}
      reads if input == null then {} else {input, input.conn, input.mBuff}
      reads if out == null then {} else {out, out.conn, out.req, out.mBuff}
      reads if err == null then {} else {err, err.conn, err.req, err.mBuff}
      reads if params == null then {} else {params, params.vec}
    {
      outcome.Accepted? && params.Contents() == outcome.entries && input.Abs() == outcome.reader
    }

    /** The streams of a request that has been read: standard input and two writers. */
    method StartServing(ghost line: seq<Connection>)
      requires Connected() && Reading()
      modifies this`out, this`err, state`nWriters, input
      ensures Connected() && Serving() && input == old(input) && params == old(params)
      ensures fresh(out) && fresh(out.mBuff) && fresh(err) && fresh(err.mBuff)
      ensures state.nWriters == 2 && !out.isClosed && !err.isClosed && out.errno == 0 && err.errno == 0
      ensures out.Abs() == Wr(STDOUT, state.requestId, out.bufflen - HEADER_LEN, [], false, false)
      ensures err.Abs() == Wr(STDERR, state.requestId, err.bufflen - HEADER_LEN, [], false, false)
      ensures Roomy() && Quiet(line)
      ensures input.Abs() == SetType(old(input.Abs()), STDIN) && params.Contents() == old(params.Contents())
    {
      hide R.Reader.Abs, W.Writer.Abs;
      input.SetReaderType(STDIN);
      MakeWriters();
    }

    /** `FCGX_Accept_r` after the previous request has been finished. */
    method AcceptNext() returns (rc: int, ghost stale: Demux.Request, ghost k: nat)
      requires Connected() && Idle()
      modifies this`input, this`out, this`err, this`params, this`ipcFd, state, listener, listener.pending
      modifies if ipcFd == null then {} else {ipcFd}
      ensures Connected()
      ensures rc == 0 || rc == (if listener.errno > 0 then -listener.errno else -9999)
      ensures rc != 0 ==> Idle() && ipcFd == null && listener.pending == []
      ensures rc != 0 ==> state.nWriters == old(state.nWriters)
      ensures k <= |old(listener.pending)| && listener.pending == old(listener.pending)[k..]
      ensures forall c | c in old(listener.pending)[..k] && c != ipcFd :: !c.isOpen
      ensures old(ipcFd) != null && ipcFd != old(ipcFd) ==> !old(ipcFd).isOpen
      ensures ipcFd == null || ipcFd == old(ipcFd) || ipcFd in old(listener.pending)[..k]
      ensures rc == 0 ==>
                && Serving() && state.nWriters == 2 && FreshStreams()
                && !out.isClosed && !err.isClosed && out.errno == 0 && err.errno == 0
                && out.Abs() == Wr(STDOUT, state.requestId, out.bufflen - HEADER_LEN, [], false, false)
                && err.Abs() == Wr(STDERR, state.requestId, err.bufflen - HEADER_LEN, [], false, false)
                && Roomy()
      ensures rc == 0 ==>
                var j := |old(Line())| - |listener.pending| - 1;
                && 0 <= j && ipcFd == old(Line())[j]
                && (QuietAt(old(Line()), j) ==> AsRead(A.Accept(StartOf(old(OffersOf(Line()))[j], stale))))
      ensures Quiet(old(Line())) ==>
                FirstRequest(old(OffersOf(Line())), old(state.Info()))
                == if rc == 0 then Served(|listener.pending|, params.Contents(), input.Abs()) else Nobody
    {
      hide A.Accept, R.Reader.Abs, W.Writer.Abs, FirstRequest, StartOf, Serving, Reading, Roomy;
      hide OffersOf, LineOf, Line, FailuresOf;
      ghost var line, offers := Line(), OffersOf(Line());
      var found;
      found, stale, k := FindRequest();
      if !found {
        return if listener.errno > 0 then -listener.errno else -9999, stale, k;
      }
      StartServing(line);
      rc := 0;
    }

    lemma OffersOfLine(current: Connection?, pending: seq<Connection>)
      ensures OffersOf(LineOf(current, pending))
           == (if current == null then [] else [OfferOf(current)]) + OffersOf(pending)
      ensures FailuresOf(LineOf(current, pending))
           == (if current == null then [] else [current.failures]) + FailuresOf(pending)
    {
    }

    /** Finishes the current request; its connection, if it is kept, is then the first in line. */
    method FinishFirst() returns (ghost kept: bool, ghost current: Offer)
      requires Connected() && (Idle() || Serving())
      modifies this, state`nWriters
      modifies if ipcFd == null then {} else {ipcFd}
      modifies if out == null then {} else {out, out.mBuff}
      modifies if err == null then {} else {err, err.mBuff}
      ensures Connected() && Idle() && (ipcFd == null || ipcFd == old(ipcFd))
      ensures old(ipcFd) != null && ipcFd != old(ipcFd) ==> !old(ipcFd).isOpen
      ensures state.nWriters == if old(input) == null then old(state.nWriters) else 0
      ensures old(input) != null ==> old(out) != null && old(err) != null
      ensures kept <==> ipcFd != null
      ensures kept <==>
                && old(ipcFd) != null && state.keepConnection
                && (old(input) != null ==> old(input).errno == 0 && old(out).errno == 0 && old(err).errno == 0)
      ensures kept ==>
                && current.inbound == old(ipcFd.inbound) && current.readEnd == old(ipcFd).readEnd
                && (old(input) == null ==> current.wire == old(ipcFd.wire))
                && (old(input) != null ==> current.wire == old(ipcFd.wire) + old(Closing()))
      ensures OffersOf(Line()) == (if kept then [current] else []) + old(OffersOf(listener.pending))
      ensures Line() == LineOf(if kept then old(ipcFd) else null, old(listener.pending))
      ensures Quiet(Line())
    {
      hide R.Reader.Abs, W.Writer.Abs, Closing, Serving, Unfailed, OffersOf, FailuresOf;
      OffersOfLine(ipcFd, listener.pending);
      Finish();
      kept := ipcFd != null;
      current := if kept then OfferOf(ipcFd) else Offer([], 0, []);
      OffersOfLine(ipcFd, listener.pending);
    }

    /** `FCGX_Accept_r`. Every connection given up on the way has been closed; the one it returns with is the only
        one left open besides those still to come. */
    method Accept()
      returns (rc: int, ghost kept: bool, ghost current: Offer, ghost stale: Demux.Request, ghost k: nat)
      requires Connected() && (Idle() || Serving())
      modifies this, state, listener, listener.pending
      modifies if ipcFd == null then {} else {ipcFd}
      modifies if out == null then {} else {out, out.mBuff}
      modifies if err == null then {} else {err, err.mBuff}
      ensures Connected()
      ensures rc == 0 || rc == (if listener.errno > 0 then -listener.errno else -9999)
      ensures rc != 0 ==> Idle() && ipcFd == null && listener.pending == []
      ensures rc != 0 ==> state.nWriters == if old(input) == null then old(state.nWriters) else 0
      ensures k <= |old(listener.pending)| && listener.pending == old(listener.pending)[k..]
      ensures forall c | c in old(listener.pending)[..k] && c != ipcFd :: !c.isOpen
      ensures old(ipcFd) != null && ipcFd != old(ipcFd) ==> !old(ipcFd).isOpen
      ensures ipcFd == null || ipcFd == old(ipcFd) || ipcFd in old(listener.pending)[..k]
      ensures rc == 0 ==>
                && Serving() && state.nWriters == 2 && FreshStreams()
                && !out.isClosed && !err.isClosed && out.errno == 0 && err.errno == 0
                && out.Abs() == Wr(STDOUT, state.requestId, out.bufflen - HEADER_LEN, [], false, false)
                && err.Abs() == Wr(STDERR, state.requestId, err.bufflen - HEADER_LEN, [], false, false)
                && Roomy()
      // The line of connections: the current one, if it is kept, with what has been sent on it, and the others.
      ensures kept <==>
                && old(ipcFd) != null && old(state.keepConnection)
                && (old(input) != null ==> old(input).errno == 0 && old(out).errno == 0 && old(err).errno == 0)
      ensures kept ==>
                && current.inbound == old(ipcFd.inbound) && current.readEnd == old(ipcFd).readEnd
                && (old(input) == null ==> current.wire == old(ipcFd.wire))
                && (old(input) != null ==> current.wire == old(ipcFd.wire) + old(Closing()))
      // Unless a write fails, the request is that of the first in line that offers one.
      ensures var line := LineOf(if kept then old(ipcFd) else null, old(listener.pending));
              var offers := (if kept then [current] else []) + old(OffersOf(listener.pending));
              var j := |line| - |listener.pending| - 1;
              && |offers| == |line|
              && (rc == 0 ==>
                    && 0 <= j && ipcFd == line[j]
                    && (QuietAt(line, j) ==> AsRead(A.Accept(StartOf(offers[j], stale)))))
              && (Quiet(line) ==>
                    FirstRequest(offers, old(state.Info()))
                    == if rc == 0 then Served(|listener.pending|, params.Contents(), input.Abs()) else Nobody)
    {
      hide A.Accept, R.Reader.Abs, W.Writer.Abs, FirstRequest, StartOf, Closing, AsRead, Roomy, Serving;
      hide OffersOf, LineOf, FailuresOf;
      kept, current := FinishFirst();
      rc, stale, k := AcceptNext();
    }

    // -------------------------------------------------------------- runs

    /** The streams are those of a request accepted just now. */
    twostate predicate FreshStreams()
      reads this
    {
      && input != null && fresh(input) && fresh(input.mBuff)
      && out != null && fresh(out) && fresh(out.mBuff)
      && err != null && fresh(err) && fresh(err.mBuff)
    }

    /** The streams are those of before, or none, or those of a request accepted meanwhile. */
    twostate predicate StreamsFollow()
      reads this
    {
      && (input == null || input == old(input) || (fresh(input) && fresh(input.mBuff)))
      && (out == null || out == old(out) || (fresh(out) && fresh(out.mBuff)))
      && (err == null || err == old(err) || (fresh(err) && fresh(err.mBuff)))
    }

    /** What holds between any two calls. */
    ghost predicate Live()
      reads this, listener, listener.pending, state, if ipcFd == null then {} else {ipcFd}
      reads if input == null then {} else {input, input.conn, input.mBuff}
      reads if out == null then {} else {out, out.conn, out.req, out.mBuff}
      reads if err == null then {} else {err, err.conn, err.req, err.mBuff}
      reads if params == null then {} else {params, params.vec}
    {
      Connected() && (Serving() || (Idle() && state.nWriters == 0))
    }

    /** Of all connections, the listener has handed out the first `k`, and all of these but the current one are
        closed. */
    ghost predicate HandedOut(all: seq<Connection>, k: nat)
      reads this, listener, all
    {
      && k <= |all| && listener.pending == all[k..]
      && (ipcFd == null || ipcFd in all[..k])
      && forall c | c in all[..k] && c != ipcFd :: !c.isOpen
    }

    lemma HandedOutMore(all: seq<Connection>, k: nat, more: nat)
      requires k + more <= |all|
      ensures all[..k + more] == all[..k] + all[k..][..more] && all[k..][more..] == all[k + more..]
    {
    }

    /** A call on one of the writers. */
    method Write(w: W.Writer, call: Call)
      requires Serving() && Connected() && (w == out || w == err)
      modifies w, w.mBuff, state`nWriters, ipcFd`wire, ipcFd`failures, ipcFd`errors, ipcFd`errno
      ensures Serving() && Connected()
    {
      hide W.Writer.Abs, R.Reader.Abs;
      if w == out {
        Act(w, err, call);
      } else {
        Act(w, out, call);
      }
    }

    /** The call itself, beside the other writer. */
    method Act(w: W.Writer, ghost other: W.Writer, call: Call)
      requires Calls.Pair(w, other)
      modifies w, w.mBuff, w.req`nWriters, w.conn`wire, w.conn`failures, w.conn`errors, w.conn`errno
      ensures Calls.Pair(w, other) && w.wasFCloseCalled == (old(w.wasFCloseCalled) || call.Close?)
      ensures w.req.nWriters
           == old(w.req.nWriters) - if call.Close? && !old(w.wasFCloseCalled) then 1 else 0
    {
      hide W.Writer.Abs, EncodeAll, PutBytes, FlushRecords, CloseRecords;
      match call {
        case Put(_, bs) => var r := w.PutStr(bs);
        case Flush(_) => var r := w.FFlush();
        case Close(_) => var r := w.FClose();
        case _ =>
      }
    }

    /** A call on the reader. */
    method Read(call: Call)
      requires Serving() && Connected()
      modifies input, input.mBuff, ipcFd`inbound, ipcFd`wire, ipcFd`failures, ipcFd`errors, ipcFd`errno
      modifies state`requestId, state`role, state`keepConnection, state`isBeginProcessed
      ensures Serving() && Connected()
    {
      hide W.Writer.Abs, R.Reader.Abs, Take;
      match call {
        case Get(n) => var str := input.GetStr(n);
        case StartData => var r := input.StartFilterData();
        case _ =>
      }
    }

    /** Accepting, with the account of connections. */
    method PerformAccept(ghost all: seq<Connection>, ghost k: nat) returns (ghost kNow: nat)
      requires Live() && HandedOut(all, k)
      requires forall i, j | 0 <= i < j < |all| :: all[i] != all[j]
      modifies this, state, listener, listener.pending
      modifies if ipcFd == null then {} else {ipcFd}
      modifies if out == null then {} else {out, out.mBuff}
      modifies if err == null then {} else {err, err.mBuff}
      ensures Live() && HandedOut(all, kNow) && StreamsFollow()
    {
      hide A.Accept, R.Reader.Abs, W.Writer.Abs, Roomy, Quiet, FirstRequest, OffersOf, LineOf, AsRead, Closing;
      var rc;
      ghost var kept, current, stale, more;
      rc, kept, current, stale, more := Accept();
      kNow := k + more;
      HandedOutMore(all, k, more);
      forall c | c in all[..k] && c != old(ipcFd)
        ensures !c.isOpen
      {
        assert c !in all[k..];
      }
    }

    /** Any call. */
    method Perform(call: Call, ghost all: seq<Connection>, ghost k: nat) returns (ghost kNow: nat)
      requires Live() && HandedOut(all, k)
      requires forall i, j | 0 <= i < j < |all| :: all[i] != all[j]
      modifies this, state, listener, listener.pending
      modifies if ipcFd == null then {} else {ipcFd}
      modifies if input == null then {} else {input, input.mBuff}
      modifies if out == null then {} else {out, out.mBuff}
      modifies if err == null then {} else {err, err.mBuff}
      ensures Live() && HandedOut(all, kNow) && StreamsFollow()
    {
      hide W.Writer.Abs, R.Reader.Abs, EncodeAll, PutBytes, CloseRecords;
      kNow := k;
      if call.Accept? {
        kNow := PerformAccept(all, k);
      } else if call.Finish? {
        Finish();
      } else if input != null && (call.Get? || call.StartData?) {
        Read(call);
      } else if input != null && (call.Put? || call.Flush? || call.Close?) {
        Write(if call.onErr then err else out, call);
      }
    }

    /** Any run. Between any two calls a request is being served completely or there is none, the count of writers is
        that of the open ones, and of all connections handed out only the current one is open: none is lost, none is
        used after its close, and none is closed twice. */
    method Serve(calls: seq<Call>, ghost all: seq<Connection>) returns (ghost k: nat)
      requires Live() && HandedOut(all, 0)
      requires forall i, j | 0 <= i < j < |all| :: all[i] != all[j]
      modifies this, state, listener, listener.pending
      modifies if ipcFd == null then {} else {ipcFd}
      modifies if input == null then {} else {input, input.mBuff}
      modifies if out == null then {} else {out, out.mBuff}
      modifies if err == null then {} else {err, err.mBuff}
      ensures Live() && HandedOut(all, k) && 0 <= state.nWriters <= 2
    {
      k := 0;
      for i := 0 to |calls|
        invariant Live() && HandedOut(all, k) && StreamsFollow()
      {
        k := Perform(calls[i], all, k);
      }
    }
  }
}
