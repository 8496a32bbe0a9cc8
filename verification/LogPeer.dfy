/** The peer's side of src/lib/nh-monitor: receiveMessageFromLogger of Server.c and, from Monitor.c,
    splitByTwoPluses in its buffer and the receive and replay loop of updatePeerMonitor. */
module LogPeer {
  import opened CText
  import opened LoggerTree
  import opened LogRecord
  import opened LogReplay
  import opened Loggers

  const RECEIVE_SIZE: nat := 256000

  /** A buffer with bytes copied to an offset. */
  function Written(buffer: string, offset: nat, bytes: string): (r: string)
    requires offset + |bytes| <= |buffer|
    ensures |r| == |buffer|
  {
    buffer[..offset] + bytes + buffer[offset + |bytes|..]
  }

  /** The connection to a logger: the bytes still to come. A read returns as many of them as it
      likes, or an error, which consumes nothing. With `calm` no error comes inside a record. */
  class Transport {
    var rest: string
    const calm: bool
    /** How many errors there were. */
    ghost var errors: nat

    constructor (bytes: string, calm: bool)
      ensures rest == bytes && this.calm == calm && errors == 0
    {
      rest, errors := bytes, 0;
      this.calm := calm;
    }

    /** recv: -1 for an error, 0 for the end of the connection. */
    method Recv(buffer: array<char>, offset: nat, size: nat) returns (n: int)
      requires size > 0 && offset + size <= buffer.Length
      modifies this, buffer
      ensures -1 <= n <= size && n <= |old(rest)|
      ensures n <= 0 ==> rest == old(rest) && buffer[..] == old(buffer[..])
      ensures n < 0 && calm ==> |rest| % RECORD_SIZE == 0
      ensures errors == old(errors) + if n < 0 then 1 else 0
      ensures n == 0 ==> rest == ""
      ensures n > 0 ==>
        && rest == old(rest)[n..]
        && buffer[..] == Written(old(buffer[..]), offset, old(rest)[..n])
    {
      var failing := *;
      if failing && (!calm || |rest| % RECORD_SIZE == 0) {
        errors := errors + 1;
        return -1;
      }
      if rest == "" { return 0; }
      n :| 1 <= n <= size && n <= |rest|;
      forall i | 0 <= i < n { buffer[offset + i] := rest[i]; }
      assert buffer[..] == Written(old(buffer[..]), offset, rest[..n]);
      rest := rest[n..];
    }
  }

  /** receiveMessageFromLogger: bytes up to a multiple of the record size, or as many as fit. */
  method ReceiveMessageFromLogger(socket: Transport, buffer: array<char>, size: nat) returns (received: int)
    requires 0 < size <= buffer.Length
    modifies socket, buffer
    ensures -1 <= received <= size && received <= |old(socket.rest)|
    ensures received > 0 ==>
      && (received % RECORD_SIZE == 0 || received == size)
      && socket.rest == old(socket.rest)[received..]
      && buffer[..] == Written(old(buffer[..]), 0, old(socket.rest)[..received])
    ensures received == 0 ==> socket.rest == ""
    ensures socket.errors == old(socket.errors) + if received < 0 then 1 else 0
    ensures received <= 0 && |old(socket.rest)| % RECORD_SIZE == 0 && (socket.calm || received == 0) ==>
      socket.rest == old(socket.rest)
  {
    hide Written;
    ghost var all, before := socket.rest, buffer[..];
    NothingWritten(before);
    assert all[..0] == "" && all[0..] == all;
    var total := 0;
    while total < size
      invariant total <= size && total <= |all| && (total > 0 ==> total % RECORD_SIZE != 0 || total == size)
      invariant socket.errors == old(socket.errors)
      invariant socket.rest == all[total..] && buffer[..] == Written(before, 0, all[..total])
    {
      var n := socket.Recv(buffer, total, size - total);
      Boundary(|all|, total);
      if n < 0 { return -1; }
      if n == 0 { return 0; }
      Extended(all, before, total, n);
      total := total + n;
      if total % RECORD_SIZE == 0 { return total; }
    }
    received := total;
  }

  lemma NothingWritten(buffer: string)
    ensures Written(buffer, 0, "") == buffer
  {
  }

  lemma Boundary(length: nat, total: nat)
    requires total <= length
    ensures length % RECORD_SIZE == 0 && (length - total) % RECORD_SIZE == 0 ==> total % RECORD_SIZE == 0
  {
  }

  lemma Extended(all: string, before: string, total: nat, n: nat)
    requires total + n <= |all| && total + n <= |before|
    ensures all[total..][n..] == all[total + n..]
    ensures Written(Written(before, 0, all[..total]), total, all[total..][..n]) == Written(before, 0, all[..total + n])
  {
  }

  /** strchr for the separator in the C string at a position; the end of that string, if there is
      none. */
  method FindSeparator(buffer: array<char>, from: nat) returns (found: bool, i: nat)
    requires from <= buffer.Length
    ensures i == from + |Until(CStr(buffer[from..]), [SEPARATOR])|
    ensures found == (i < from + |CStr(buffer[from..])|)
  {
    hide Until, CStr;
    i := from;
    ghost var s := buffer[from..];
    assert s[0..] == s;
    while i < buffer.Length && buffer[i] != '\0' && buffer[i] != SEPARATOR
      invariant from <= i <= buffer.Length
      invariant |Until(CStr(s), [SEPARATOR])| == i - from + |Until(CStr(s[i - from..]), [SEPARATOR])|
      invariant |CStr(s)| == i - from + |CStr(s[i - from..])|
    {
      FindStep(s, i - from);
      i := i + 1;
    }
    FindStep(s, i - from);
    found := i < buffer.Length && buffer[i] == SEPARATOR;
  }

  lemma FindStep(s: string, i: nat)
    requires i <= |s|
    ensures |Until(CStr(s[i..]), [SEPARATOR])|
         == if i == |s| || s[i] == '\0' || s[i] == SEPARATOR then 0
            else 1 + |Until(CStr(s[i + 1..]), [SEPARATOR])|
    ensures |CStr(s[i..])| == if i == |s| || s[i] == '\0' then 0 else 1 + |CStr(s[i + 1..])|
  {
    if i < |s| {
      assert s[i..][1..] == s[i + 1..];
      if s[i] != '\0' { assert CStr(s[i..]) == [s[i]] + CStr(s[i + 1..]); }
    }
  }

  lemma {:induction false} CStrTail(t: string, j: nat)
    requires j <= |CStr(t)|
    ensures CStr(t)[j..] == CStr(t[j..])
  {
    if j > 0 {
      assert CStr(t) == [t[0]] + CStr(t[1..]);
      CStrTail(t[1..], j - 1);
      assert t[1..][j - 1..] == t[j..];
      assert CStr(t)[j..] == CStr(t[1..])[j - 1..];
    } else {
      assert t[0..] == t && CStr(t)[0..] == CStr(t);
    }
  }

  lemma TailFrom(all: string, at: nat, from: nat)
    requires at <= |all| && at <= from <= at + |CStr(all[at..])|
    ensures from <= |all| && CStr(all[from..]) == CStr(all[at..])[from - at..]
    ensures all[at..from] == CStr(all[at..])[..from - at]
  {
    hide CStr;
    CStrTail(all[at..], from - at);
    assert all[at..][from - at..] == all[from..];
    assert all[at..][..from - at] == all[at..from];
  }

  /** Where the separators stand in a buffer, as strchr finds them. */
  function FirstAt(all: string, at: nat): nat
    requires at <= |all|
  {
    at + |Until(CStr(all[at..]), [SEPARATOR])|
  }

  predicate FoundAt(all: string, at: nat, i: nat)
    requires at <= |all|
  {
    i < at + |CStr(all[at..])|
  }

  lemma SplitNone(all: string, at: nat)
    requires at <= |all|
    requires var i := FirstAt(all, at);
      !FoundAt(all, at, i) || (i < |all| && !FoundAt(all, i + 1, FirstAt(all, i + 1)))
    ensures Split(CStr(all[at..])) == NoParts && CutAt(all, at) == all
  {
    hide Until, CStr;
    var i := FirstAt(all, at);
    if FoundAt(all, at, i) { TailFrom(all, at, i + 1); }
    assert all[..at] + CStr(all[at..]) + all[at + |CStr(all[at..])|..] == all;
  }

  lemma SplitSome(all: string, at: nat, i: nat, j: nat)
    requires at <= |all| && i == FirstAt(all, at) && FoundAt(all, at, i)
    requires i < |all| && j == FirstAt(all, i + 1) && FoundAt(all, i + 1, j)
    ensures at <= i < j < |all|
    ensures Split(CStr(all[at..]))
         == Parts(all[at..i], if i + 1 == j then None else Some(all[i + 1..j]), CStr(all[j + 1..]))
  {
    hide Until, CStr;
    TailFrom(all, at, i);
    TailFrom(all, at, i + 1);
    TailFrom(all, i + 1, j);
    TailFrom(all, at, j + 1);
    var s := CStr(all[at..]);
    assert s[i + 1 - at..][..j - i - 1] == s[i + 1 - at..j - at];
  }

  lemma CutSome(all: string, at: nat, i: nat, j: nat)
    requires at <= |all| && i == FirstAt(all, at) && FoundAt(all, at, i)
    requires i < |all| && j == FirstAt(all, i + 1) && FoundAt(all, i + 1, j)
    ensures at <= i < j < |all|
    ensures CutAt(all, at) == if i + 1 == j then all[i := '\0'] else all[i := '\0'][j := '\0']
  {
    hide Until, CStr;
    TailFrom(all, at, i + 1);
    var s := CStr(all[at..]);
    Patched(all, at, s, i, j);
  }

  lemma Patched(all: string, at: nat, s: string, i: nat, j: nat)
    requires at <= i < j < at + |s| <= |all| && s == all[at..][..|s|]
    ensures all[..at] + s[i - at := '\0'] + all[at + |s|..] == all[i := '\0']
    ensures all[..at] + s[i - at := '\0'][j - at := '\0'] + all[at + |s|..] == all[i := '\0'][j := '\0']
  {
  }

  /** splitByTwoPluses: the parts are C strings inside the buffer, ended by NULs written over the
      separators. */
  method SplitByTwoPluses(buffer: array<char>, at: nat) returns (parts: Parts)
    requires at <= buffer.Length
    modifies buffer
    ensures parts == Split(CStr(old(buffer[..])[at..]))
    ensures buffer[..] == CutAt(old(buffer[..]), at)
  {
    hide Until, CStr, Split, CutAt;
    ghost var all := buffer[..];
    assert buffer[at..] == all[at..];
    var found, i := FindSeparator(buffer, at);
    if !found {
      SplitNone(all, at);
      return NoParts;
    }
    TailFrom(all, at, i + 1);
    assert buffer[i + 1..] == all[i + 1..];
    var again, j := FindSeparator(buffer, i + 1);
    if !again {
      SplitNone(all, at);
      return NoParts;
    }
    SplitSome(all, at, i, j);
    CutSome(all, at, i, j);
    assert buffer[j + 1..] == all[j + 1..];
    var part1, part2, part3 := buffer[at..i], buffer[i + 1..j], CStr(buffer[j + 1..]);
    buffer[i] := '\0';
    assert buffer[..] == all[i := '\0'];
    if i + 1 == j {
      parts := Parts(part1, None, part3);
    } else {
      buffer[j] := '\0';
      assert buffer[..] == all[i := '\0'][j := '\0'];
      parts := Parts(part1, Some(part2), part3);
    }
  }

  /** The replay loop over a received buffer. A message that makes the process crash ends it. */
  method ReplayRecords(logger: Logger, buffer: array<char>, received: nat) returns (crashed: bool)
    requires logger.Valid() && received <= buffer.Length
    modifies logger, logger.nodes.Values, buffer
    ensures fresh(logger.nodes.Values - old(logger.nodes.Values))
    ensures crashed <==> !NoCrash(Messages(old(buffer[..]), 0, received))
    ensures !crashed ==>
      && logger.Valid() && logger.state == old(logger.state)
      && logger.history == old(logger.history) + Messages(old(buffer[..]), 0, received)
  {
    hide *;
    RecordSize();
    ghost var goal := Messages(buffer[..], 0, received);
    ghost var done: seq<Message> := [];
    NoCrashNothing();
    var i := 0;
    while i < received
      invariant 0 <= i && logger.Valid() && fresh(logger.nodes.Values - old(logger.nodes.Values))
      invariant logger.state == old(logger.state) && logger.history == old(logger.history) + done
      invariant goal == done + Messages(buffer[..], i, received) && NoCrash(done)
    {
      MessagesStep(buffer[..], i, received, done);
      var parts := SplitByTwoPluses(buffer, i);
      if parts.NoParts? { return false; }
      var m := Message(parts.part1, parts.part2, parts.part3);
      NoCrashMore(done, m);
      var outcome := logger.HandleLogMessage(m);
      if outcome == Crash {
        NoCrashFront(done + [m], Messages(buffer[..], i + RECORD_SIZE, received));
        return true;
      }
      done := done + [m];
      i := i + RECORD_SIZE;
    }
    MessagesStep(buffer[..], i, received, done);
    crashed := false;
  }

  lemma RecordSize()
    ensures RECORD_SIZE > 0
  {
  }

  lemma NoCrashNothing()
    ensures NoCrash([])
  {
  }

  lemma NoCrashFront(a: seq<Message>, b: seq<Message>)
    requires !NoCrash(a)
    ensures !NoCrash(a + b)
  {
    hide Crashes;
    ghost var m :| m in a && Crashes(m);
    assert m in a + b;
  }

  lemma MessagesStep(buffer: string, at: nat, received: nat, done: seq<Message>)
    requires received <= |buffer|
    ensures done + Messages(buffer, at, received)
         == if at >= received then done
            else
              var parts := Split(CStr(buffer[at..]));
              if parts.NoParts? then done
              else
                done + [Message(parts.part1, parts.part2, parts.part3)]
                + Messages(CutAt(buffer, at), at + RECORD_SIZE, received)
  {
    hide Split, CStr, CutAt;
  }

  // ---- the receive loop ----

  /** Whole messages: they fit their records, and no logger crashes on them. */
  ghost predicate Sendable(ms: seq<Message>) {
    NoCrash(ms) && forall m <- ms :: Fits(m)
  }

  /** What comes in is the records of such messages, and no error hits a record in the middle. */
  ghost predicate Coming(socket: Transport, ms: seq<Message>)
    reads socket
    ensures Coming(socket, ms) ==> socket.calm && socket.rest == Records(ms) && Sendable(ms)
  {
    socket.calm && socket.rest == Records(ms) && Sendable(ms)
  }

  /** The first `taken` of the messages that were coming are gone from the transport. */
  ghost predicate Left(socket: Transport, coming: seq<Message>, taken: nat)
    reads socket
  {
    taken <= |coming| && Coming(socket, coming[taken..])
  }

  /** They were replayed, in order, each once. */
  ghost predicate Replayed(before: seq<Message>, history: seq<Message>, coming: seq<Message>, taken: nat) {
    taken <= |coming| && history == before + AllSeen(coming[..taken])
  }

  /** The peer of a monitor: state 1 without a connection, 2 with one, 3 once something was received. */
  class PeerMonitor {
    var logger: Logger
    var state: int

    constructor ()
      ensures fresh(logger) && fresh(logger.nodes.Values) && logger.Valid() && logger.history == [] && state == 2
    {
      logger := new Logger();
      state := 2;
    }

    /** One round of the receive loop; whether there is to be another. */
    method ReceiveOnce(socket: Transport, buffer: array<char>, reset: bool, ghost coming: seq<Message>)
      returns (again: bool, crashed: bool, ghost taken: nat)
      requires logger.Valid() && 2 <= state <= 3 && buffer.Length == RECEIVE_SIZE + 1
      modifies this, socket, buffer, logger, logger.nodes.Values
      ensures crashed ==> !again && !old(Coming(socket, coming))
      ensures !crashed ==>
        && logger.Valid() && 1 <= state <= 3
        && (if state == 1 then !again && reset && logger.history == []
            else logger == old(logger) && fresh(logger.nodes.Values - old(logger.nodes.Values)))
        && (again ==> state == 3) && (!again && state != 1 ==> state == old(state))
        && (socket.errors == old(socket.errors) && !again ==> state == 1)
      ensures old(Coming(socket, coming)) ==>
        && Left(socket, coming, taken) && (state == 1 ==> taken == |coming|)
        && (state != 1 ==> Replayed(old(logger.history), logger.history, coming, taken))
        && (socket.errors == old(socket.errors) && coming != [] ==> taken > 0) && (taken > 0 ==> again)
        && taken <= 1000
      ensures socket.errors >= old(socket.errors)
    {
      hide Logger.Valid, Logger.TreeValid, Messages, AllSeen, Records, Sendable, Replay, Split, CStr, CutAt, NoCrash,
           Coming;
      ghost var good, history := Coming(socket, coming), logger.history;
      forall i | 0 <= i < buffer.Length { buffer[i] := '\0'; }
      ghost var rest, zeros := socket.rest, buffer[..];
      var received := ReceiveMessageFromLogger(socket, buffer, RECEIVE_SIZE);
      taken, crashed := 0, false;
      NoneTaken(history, coming);
      if good { taken := RoundTaken(socket, rest, coming, received, buffer[..], zeros); }
      if received == 0 && reset {
        logger := new Logger();
        state := 1;
        again := false;
        return;
      }
      if received < 0 {
        again := false;
        return;
      }
      crashed := ReplayRecords(logger, buffer, received);
      if crashed {
        again := false;
        return;
      }
      state := 3;
      again := true;
    }

    /** The same for messages of which some were taken in earlier rounds. */
    method ReceiveNext(socket: Transport, buffer: array<char>, reset: bool, ghost good: bool,
                       ghost start: seq<Message>, ghost coming: seq<Message>, ghost before: nat)
      returns (again: bool, crashed: bool, ghost taken: nat)
      requires logger.Valid() && 2 <= state <= 3 && buffer.Length == RECEIVE_SIZE + 1
      requires good ==> Left(socket, coming, before) && Replayed(start, logger.history, coming, before)
      modifies this, socket, buffer, logger, logger.nodes.Values
      ensures crashed ==> !again && !good
      ensures !crashed ==>
        && logger.Valid() && 1 <= state <= 3 && (again ==> state == 3)
        && (!again && state != 1 ==> state == old(state))
        && (if state == 1 then !again && reset && logger.history == []
            else logger == old(logger) && fresh(logger.nodes.Values - old(logger.nodes.Values)))
      ensures good ==>
        && Left(socket, coming, taken) && (state == 1 ==> taken == |coming|)
        && (state != 1 ==> Replayed(start, logger.history, coming, taken))
        && (socket.errors == old(socket.errors) ==> taken == |coming| || taken > before)
        && (taken > before ==> again) && before <= taken <= before + 1000 && taken <= |coming|
      ensures socket.errors >= old(socket.errors)
    {
      hide *;
      ghost var left, history := Remaining(coming, before), logger.history;
      if good { StillComing(socket, coming, before); }
      ghost var more;
      again, crashed, more := ReceiveOnce(socket, buffer, reset, left);
      taken := before + more;
      if good {
        LeftMore(socket, coming, before, more);
        if state != 1 { ReplayedMore(start, history, logger.history, coming, before, more); }
      }
    }

    /** The cases 2 and 3 of updatePeerMonitor: up to 101 times, receive whole records and replay
        them. However the transport cuts the records into pieces, some of the messages that were
        still to come are replayed, in order, each once, and the others are still to come. When the
        connection closes and `reset` is set, everything had come, and the logger starts anew.
        Without an error every round makes progress; a round takes no more than 1000 messages. */
    method UpdatePeerMonitor(socket: Transport, buffer: array<char>, reset: bool, ghost coming: seq<Message>)
      returns (crashed: bool, ghost taken: nat)
      requires logger.Valid() && 2 <= state <= 3 && buffer.Length == RECEIVE_SIZE + 1
      modifies this, socket, buffer, logger, logger.nodes.Values
      ensures crashed ==> !old(Coming(socket, coming))
      ensures !crashed ==> logger.Valid() && (state == 1 ==> reset && logger.history == [])
      ensures !crashed ==> state == 1 || state == 3 || state == old(state)
      ensures old(Coming(socket, coming)) ==>
        && Left(socket, coming, taken) && (state == 1 ==> taken == |coming|)
        && (state != 1 ==> Replayed(old(logger.history), logger.history, coming, taken))
        && (state != 1 && taken > 0 ==> state == 3)
        && (socket.errors == old(socket.errors) ==> taken == |coming| || taken > 100) && taken <= 101 * 1000
    {
      hide *;
      ghost var start, good, errors := logger.history, Coming(socket, coming), socket.errors;
      ghost var mine, first := logger, state;
      var counter := 0;
      taken := 0;
      NothingTaken(socket, start, coming);
      while true
        invariant logger == mine && logger.Valid() && fresh(logger.nodes.Values - old(logger.nodes.Values))
        invariant counter <= 100 && socket.errors >= errors && state == if counter == 0 then first else 3
        invariant good ==>
          && Left(socket, coming, taken) && Replayed(start, logger.history, coming, taken)
          && taken <= counter * 1000 && (socket.errors == errors ==> taken == |coming| || taken >= counter)
        decreases 100 - counter
      {
        var again;
        again, crashed, taken := ReceiveNext(socket, buffer, reset, good, start, coming, taken);
        if !again || counter >= 100 { return; }
        counter := counter + 1;
      }
    }
  }

  lemma NothingTaken(socket: Transport, start: seq<Message>, coming: seq<Message>)
    ensures Replayed(start, start, coming, 0)
    ensures Coming(socket, coming) ==> Left(socket, coming, 0)
  {
    hide Coming;
    NoneTaken(start, coming);
  }

  lemma NoneTaken(start: seq<Message>, coming: seq<Message>)
    ensures start + AllSeen(coming[..0]) == start && coming[0..] == coming
  {
  }

  ghost function Remaining(coming: seq<Message>, taken: nat): seq<Message> {
    if taken <= |coming| then coming[taken..] else []
  }

  lemma StillComing(socket: Transport, coming: seq<Message>, taken: nat)
    requires Left(socket, coming, taken)
    ensures taken <= |coming|
    ensures Coming(socket, Remaining(coming, taken)) && |Remaining(coming, taken)| == |coming| - taken
  {
    hide Coming;
  }

  lemma LeftMore(socket: Transport, coming: seq<Message>, taken: nat, more: nat)
    requires taken <= |coming| && Left(socket, Remaining(coming, taken), more)
    ensures Left(socket, coming, taken + more) && taken + more <= |coming|
  {
    hide Coming;
    assert coming[taken..][more..] == coming[taken + more..];
  }

  lemma ReplayedMore(start: seq<Message>, before: seq<Message>, history: seq<Message>, coming: seq<Message>,
                     taken: nat, more: nat)
    requires Replayed(start, before, coming, taken) && Replayed(before, history, Remaining(coming, taken), more)
    ensures Replayed(start, history, coming, taken + more)
  {
    hide Seen;
    assert AllSeen(coming[..taken]) + AllSeen(coming[taken..][..more]) == AllSeen(coming[..taken + more]);
  }

  /** What one call of receiveMessageFromLogger took of what was to come. */
  lemma RoundTaken(socket: Transport, rest: string, ms: seq<Message>, received: int, buffer: string, zeros: string)
    returns (k: nat)
    requires socket.calm && rest == Records(ms) && Sendable(ms) && -1 <= received <= RECEIVE_SIZE
    requires received > 0 ==>
      && (received % RECORD_SIZE == 0 || received == RECEIVE_SIZE) && received <= |rest|
      && socket.rest == rest[received..] && received <= |zeros| && buffer == Written(zeros, 0, rest[..received])
    requires received == 0 ==> socket.rest == ""
    requires received <= 0 && |rest| % RECORD_SIZE == 0 ==> socket.rest == rest
    requires received <= |buffer|
    ensures k <= |ms| && Coming(socket, ms[k..])
    ensures received < 0 ==> k == 0
    ensures received == 0 ==> ms == [] && k == 0
    ensures received >= 0 ==> Messages(buffer, 0, received) == AllSeen(ms[..k]) && NoCrash(AllSeen(ms[..k]))
    ensures received > 0 ==> k > 0
    ensures k <= 1000
  {
    hide Messages, AllSeen, Records, Fits, Split, CStr, CutAt, Crashes;
    assert |rest| == RECORD_SIZE * |ms|;
    if received > 0 {
      k := received / RECORD_SIZE;
      assert received == RECORD_SIZE * k;
      TakeRecords(ms, k);
      assert buffer[0..] == Records(ms[..k]) + zeros[received..];
      MessagesOfRecords(buffer, 0, received, ms[..k], zeros[received..]);
      SeenSurvives(ms[..k]);
    } else {
      k := 0;
      assert ms[0..] == ms && ms[..0] == [];
      if received == 0 { NoMessages(buffer); }
    }
  }

  lemma SeenSurvives(ms: seq<Message>)
    requires NoCrash(ms)
    ensures NoCrash(AllSeen(ms))
  {
    hide Crashes, Seen;
    forall i | 0 <= i < |ms| ensures !Crashes(AllSeen(ms)[i]) {
      assert ms[i] in ms;
      UpdateSeen(EMPTY_LOG, ms[i]);
    }
  }

  lemma NoMessages(buffer: string)
    ensures Messages(buffer, 0, 0) == [] && AllSeen([]) == [] && NoCrash([])
  {
  }

  lemma TakeRecords(ms: seq<Message>, k: nat)
    requires RECORD_SIZE * k <= |Records(ms)|
    ensures k <= |ms|
    ensures Records(ms)[..RECORD_SIZE * k] == Records(ms[..k]) && Records(ms)[RECORD_SIZE * k..] == Records(ms[k..])
  {
    hide Records;
    RecordsSplit(ms, k);
  }

  // ---- replication ----

  /** The peer of a source that was connected from the start: when it has replayed what the source
      recorded, it counts the same messages and shows the same messages at every node. Its nodes are
      those of the source exactly when every message reached only the root or a place on the path of
      an accepted one, and its tree, with the order of children, is that of the source exactly when
      the accepted messages mention the children of every place in the order in which all do. That
      is so at least when no refused message left a new node. */
  lemma PeerShowsSource(history: seq<Message>, recorded: seq<Message>, replayed: seq<Message>)
    requires recorded == Accepted(history) && replayed == AllSeen(recorded)
    ensures var source, peer := Replay(history), Replay(replayed);
      && peer.total == source.total && SameMessages(source.log, peer.log)
      && (peer.log.Keys == source.log.Keys <==> Covered(history))
      && (peer == source <==> SameOrder(history))
      && (NothingLeft(history) ==> peer == source)
  {
    hide *;
    ReplaySeen(recorded);
    AcceptedSuffice(history);
    SameNodesIff(history);
    SameTreeIff(history);
    if NothingLeft(history) { NothingLeftSuffices(history); }
  }
}
