/** What a sequence of messages makes of an empty logger (src/lib/nh-monitor/Logger.c), and what is
    left of that when only the accepted messages are replayed elsewhere. */
module LogReplay {
  import opened CText
  import opened LoggerTree
  import opened LogRecord

  /** A logger seen from outside: its log and its counter. */
  datatype Replica = Replica(log: Log, total: nat)

  const NEW_REPLICA: Replica := Replica(EMPTY_LOG, 0)

  function Apply(r: Replica, m: Message): Replica {
    var u := Update(r.log, m);
    Replica(u.log, r.total + if u.outcome == Success then 1 else 0)
  }

  function Replay(ms: seq<Message>): Replica {
    if ms == [] then NEW_REPLICA else Apply(Replay(ms[..|ms| - 1]), ms[|ms| - 1])
  }

  lemma ReplayMore(ms: seq<Message>, m: Message)
    ensures Replay(ms + [m]) == Apply(Replay(ms), m)
  {
    assert (ms + [m])[..|ms|] == ms;
  }

  lemma {:induction false} ReplayWellFormed(ms: seq<Message>)
    ensures WellFormed(Replay(ms).log)
  {
    if ms != [] {
      hide Update, WellFormed, Crashes, Succeeds;
      ReplayWellFormed(ms[..|ms| - 1]);
      UpdateMeaning(Replay(ms[..|ms| - 1]).log, ms[|ms| - 1]);
    } else {
      EmptyWellFormed();
    }
  }

  lemma EmptyWellFormed()
    ensures WellFormed(EMPTY_LOG)
  {
  }

  // ---- the accepted messages ----

  function Accepted(ms: seq<Message>): seq<Message> {
    if ms == [] then []
    else
      var before, m := ms[..|ms| - 1], ms[|ms| - 1];
      Accepted(before) + if Update(Replay(before).log, m).outcome == Success then [m] else []
  }

  lemma AcceptedMore(ms: seq<Message>, m: Message)
    ensures Accepted(ms + [m])
         == Accepted(ms) + if Update(Replay(ms).log, m).outcome == Success then [m] else []
  {
    hide Update;
    assert (ms + [m])[..|ms|] == ms;
  }

  /** Whether a message is accepted depends on the message alone. */
  lemma {:induction false} AcceptedIs(ms: seq<Message>, m: Message)
    ensures m in Accepted(ms) <==> m in ms && Succeeds(m)
  {
    if ms != [] {
      hide Update, WellFormed, Crashes, Succeeds;
      var before, last := ms[..|ms| - 1], ms[|ms| - 1];
      assert ms == before + [last];
      AcceptedIs(before, m);
      ReplayWellFormed(before);
      UpdateMeaning(Replay(before).log, last);
    }
  }

  ghost predicate SameMessages(a: Log, b: Log) {
    forall q :: MessagesAt(a, q) == MessagesAt(b, q)
  }

  /** The accepted messages alone give the same messages at every node and the same count: a
      refused message can leave nodes behind, but nothing in them. */
  lemma {:induction false} AcceptedSuffice(ms: seq<Message>)
    ensures var all, some := Replay(ms), Replay(Accepted(ms));
      && WellFormed(all.log) && WellFormed(some.log)
      && SameMessages(all.log, some.log) && all.total == some.total
  {
    if ms != [] {
      hide Update, WellFormed, PathFrom, Succeeds, Crashes, ReplaceOf, Put;
      var before, m := ms[..|ms| - 1], ms[|ms| - 1];
      AcceptedSuffice(before);
      var some := Replay(Accepted(before));
      UpdateMeaning(Replay(before).log, m);
      UpdateMeaning(some.log, m);
      if Update(Replay(before).log, m).outcome == Success {
        ReplayMore(Accepted(before), m);
      } else {
        assert Accepted(ms) == Accepted(before);
      }
    } else {
      EmptyWellFormed();
    }
  }

  // ---- through a record ----

  lemma OptionsSeen(m: Message)
    ensures ReplaceOf(Seen(m).options) == ReplaceOf(m.options)
    ensures OptionsCrash(Seen(m).options) == OptionsCrash(m.options)
  {
    if m.options == None {
      assert Until("(null)", "=;") == "(null)" by { UntilIs("(null)", "", "=;"); assert "(null)" + "" == "(null)"; }
      assert ParseOptions("(null)") == [LoggerOption("(null)", "")];
    } else if m.options == Some("") {
      ParseEmpty();
    }
  }

  /** A message and what the peer sees of it have the same effect, a crash included. */
  lemma UpdateSeen(log: Log, m: Message)
    ensures Update(log, Seen(m)) == Update(log, m) && Crashes(Seen(m)) == Crashes(m)
  {
    hide ReplaceOf, Walk, OptionsCrash, PathFrom, PathOk;
    OptionsSeen(m);
  }

  /** Going through a record changes nothing for the log. */
  lemma {:induction false} ReplaySeen(ms: seq<Message>)
    ensures Replay(AllSeen(ms)) == Replay(ms)
  {
    if ms != [] {
      hide Update, Seen;
      var before, m := ms[..|ms| - 1], ms[|ms| - 1];
      ReplaySeen(before);
      UpdateSeen(Replay(before).log, m);
      var seen := AllSeen(ms);
      assert seen[..|ms| - 1] == AllSeen(before) && seen[|ms| - 1] == Seen(m);
    }
  }

  // ---- the nodes ----

  lemma UpdateNodes(log: Log, m: Message, q: Path)
    requires WellFormed(log)
    ensures q in Update(log, m).log <==> q in log || IsAbove(q, Reached(Root, m.node))
    ensures ChildrenAt(Update(log, m).log, q)
         == AddName(ChildrenAt(log, q), NextName(q, Reached(Root, m.node)))
  {
    hide Walk, WellFormed, OptionsCrash, ReplaceOf, Put, Reached, NextName, AddName;
    RootThere(log);
    WalkNodes(log, Root, m.node, q);
    WalkChildren(log, Root, m.node, q);
  }

  /** The nodes are the root, the places that messages reached, and their ancestors. */
  lemma {:induction false} ReplayNodes(ms: seq<Message>, q: Path)
    ensures q in Replay(ms).log <==> q == Root || exists m <- ms :: IsAbove(q, Reached(Root, m.node))
  {
    if ms != [] {
      hide Update, WellFormed, IsAbove, Reached;
      var before, last := ms[..|ms| - 1], ms[|ms| - 1];
      assert ms == before + [last];
      ReplayNodes(before, q);
      ReplayWellFormed(before);
      UpdateNodes(Replay(before).log, last, q);
    }
  }

  /** Every message reached only the root or a place on the path of one that was accepted. */
  ghost predicate Covered(ms: seq<Message>) {
    forall m <- ms :: Reached(Root, m.node) == Root ||
      exists a <- ms :: Succeeds(a) && IsAbove(Reached(Root, m.node), PathFrom(Root, a.node))
  }

  lemma AcceptedNodes(ms: seq<Message>, q: Path)
    ensures q in Replay(Accepted(ms)).log
       <==> q == Root || exists a <- ms :: Succeeds(a) && IsAbove(q, PathFrom(Root, a.node))
  {
    hide Reached, PathFrom, IsAbove, Succeeds;
    ReplayNodes(Accepted(ms), q);
    forall a ensures a in Accepted(ms) <==> a in ms && Succeeds(a) { AcceptedIs(ms, a); }
    forall a | Succeeds(a) ensures Reached(Root, a.node) == PathFrom(Root, a.node) { SucceedsReached(a); }
  }

  lemma SucceedsReached(m: Message)
    requires Succeeds(m)
    ensures Reached(Root, m.node) == PathFrom(Root, m.node)
  {
    ReachedAll(Root, m.node);
  }

  lemma {:induction false} AboveTrans(p: Path, q: Path, r: Path)
    requires IsAbove(p, q) && IsAbove(q, r)
    ensures IsAbove(p, r)
  {
    if q != r { AboveTrans(p, q, r.parent); }
  }

  lemma AboveSelf(p: Path)
    ensures IsAbove(p, p)
  {
  }

  /** The accepted messages alone make the same nodes exactly when every message reached only the
      root or a place on the path of an accepted one. */
  lemma SameNodesIff(ms: seq<Message>)
    ensures Replay(ms).log.Keys == Replay(Accepted(ms)).log.Keys <==> Covered(ms)
  {
    hide Reached, PathFrom, IsAbove, Succeeds, Replay, Accepted;
    var all, some := Replay(ms).log, Replay(Accepted(ms)).log;
    if all.Keys == some.Keys {
      forall m | m in ms
        ensures Reached(Root, m.node) == Root ||
          exists a <- ms :: Succeeds(a) && IsAbove(Reached(Root, m.node), PathFrom(Root, a.node))
      {
        var q := Reached(Root, m.node);
        AboveSelf(q);
        ReplayNodes(ms, q);
        AcceptedNodes(ms, q);
        assert q in all.Keys;
      }
    }
    if Covered(ms) {
      forall q ensures q in all <==> q in some { NodeCovered(ms, q); }
      assert all.Keys == some.Keys;
    }
  }

  lemma NodeCovered(ms: seq<Message>, q: Path)
    requires Covered(ms)
    ensures q in Replay(ms).log <==> q in Replay(Accepted(ms)).log
  {
    hide Reached, PathFrom, IsAbove, Succeeds, Replay, Accepted;
    ReplayNodes(ms, q);
    AcceptedNodes(ms, q);
    if q != Root && exists m <- ms :: IsAbove(q, Reached(Root, m.node)) {
      ghost var m :| m in ms && IsAbove(q, Reached(Root, m.node));
      if Reached(Root, m.node) == Root {
        AboveRoot(q);
      } else {
        ghost var a :| a in ms && Succeeds(a) && IsAbove(Reached(Root, m.node), PathFrom(Root, a.node));
        AboveTrans(q, Reached(Root, m.node), PathFrom(Root, a.node));
      }
    }
    forall a | a in ms && Succeeds(a) && IsAbove(q, PathFrom(Root, a.node))
      ensures IsAbove(q, Reached(Root, a.node))
    {
      SucceedsReached(a);
    }
  }

  lemma AboveRoot(q: Path)
    ensures IsAbove(q, Root) <==> q == Root
  {
  }

  // ---- the order of children ----

  /** The children of a place in the order in which messages first led there. */
  function Mentioned(ms: seq<Message>, at: Path): seq<string> {
    if ms == [] then []
    else AddName(Mentioned(ms[..|ms| - 1], at), NextName(at, Reached(Root, ms[|ms| - 1].node)))
  }

  lemma {:induction false} ChildrenAre(ms: seq<Message>, at: Path)
    ensures ChildrenAt(Replay(ms).log, at) == Mentioned(ms, at)
  {
    if ms != [] {
      hide Update, WellFormed, AddName, NextName, Reached, ChildrenAt;
      ChildrenAre(ms[..|ms| - 1], at);
      ReplayWellFormed(ms[..|ms| - 1]);
      UpdateNodes(Replay(ms[..|ms| - 1]).log, ms[|ms| - 1], at);
    }
  }

  /** All messages and the accepted ones alone mention the children of every place in the same order. */
  ghost predicate SameOrder(ms: seq<Message>) {
    forall at :: Mentioned(ms, at) == Mentioned(Accepted(ms), at)
  }

  lemma {:induction false} SameNode(ms: seq<Message>, q: Path)
    requires SameOrder(ms)
    ensures q in Replay(ms).log <==> q in Replay(Accepted(ms)).log
  {
    ReplayWellFormed(ms);
    ReplayWellFormed(Accepted(ms));
    if q.Root? {
      RootThere(Replay(ms).log);
      RootThere(Replay(Accepted(ms)).log);
    } else {
      hide WellFormed, Replay, Accepted, Mentioned;
      SameNode(ms, q.parent);
      ChildrenAre(ms, q.parent);
      ChildrenAre(Accepted(ms), q.parent);
      InParent(Replay(ms).log, q);
      InParent(Replay(Accepted(ms)).log, q);
    }
  }

  lemma RootThere(log: Log)
    requires WellFormed(log)
    ensures Root in log
  {
  }

  lemma InParent(log: Log, q: Path)
    requires WellFormed(log) && q.Child?
    ensures q in log <==> q.name in ChildrenAt(log, q.parent)
  {
    assert q == Child(q.parent, q.name);
  }

  /** The accepted messages alone make the same tree, children in the same order, exactly when they
      mention the children of every place in the same order as all messages do. */
  lemma SameTreeIff(ms: seq<Message>)
    ensures Replay(ms).log == Replay(Accepted(ms)).log <==> SameOrder(ms)
  {
    hide Replay, Accepted, Mentioned, WellFormed;
    var all, some := Replay(ms).log, Replay(Accepted(ms)).log;
    AcceptedSuffice(ms);
    if all == some {
      forall at ensures Mentioned(ms, at) == Mentioned(Accepted(ms), at) {
        ChildrenAre(ms, at);
        ChildrenAre(Accepted(ms), at);
      }
    }
    if SameOrder(ms) {
      forall q
        ensures q in all <==> q in some
        ensures q in all ==> all[q] == some[q]
      {
        SameNode(ms, q);
        ChildrenAre(ms, q);
        ChildrenAre(Accepted(ms), q);
        assert MessagesAt(all, q) == MessagesAt(some, q);
      }
      assert all == some;
    }
  }

  /** No refused message reached a place that was not there yet. */
  ghost predicate NothingLeft(ms: seq<Message>) {
    ms == [] ||
      (var before, m := ms[..|ms| - 1], ms[|ms| - 1];
       NothingLeft(before) && (Succeeds(m) || Reached(Root, m.node) in Replay(before).log))
  }

  lemma {:induction false} NothingLeftSuffices(ms: seq<Message>)
    requires NothingLeft(ms)
    ensures Replay(ms) == Replay(Accepted(ms))
  {
    if ms != [] {
      hide Update, WellFormed, Succeeds, Crashes, Reached, PathFrom, ReplaceOf, Put;
      var before, m := ms[..|ms| - 1], ms[|ms| - 1];
      NothingLeftSuffices(before);
      ReplayWellFormed(before);
      UpdateMeaning(Replay(before).log, m);
      if Succeeds(m) {
        ReplayMore(Accepted(before), m);
      } else {
        RefusedStays(Replay(before).log, m);
        assert Accepted(ms) == Accepted(before);
      }
    }
  }

  lemma RefusedStays(log: Log, m: Message)
    requires WellFormed(log) && !Succeeds(m) && Reached(Root, m.node) in log
    ensures Update(log, m).log == log && Update(log, m).outcome != Success
  {
    hide Walk, WellFormed, Reached, Succeeds, Crashes, PathFrom, ReplaceOf, OptionsCrash;
    UpdateMeaning(log, m);
    RootThere(log);
    WalkStays(log, Root, m.node);
  }

  // ---- two inputs ----

  /** A text of one character leads to one node; with "::" behind it the walk stops there. */
  lemma OneName(c: char)
    requires c != ':'
    ensures Reached(Root, [c]) == PathFrom(Root, [c]) == Child(Root, [c]) && PathOk(Child(Root, [c]))
    ensures Reached(Root, [c] + "::") == Child(Root, [c]) && !PathOk(PathFrom(Root, [c] + "::"))
  {
    var s := [c] + "::";
    assert [c][1..] == "" && s[1..] == "::" && "::"[1..] == ":" && ":"[1..] == "";
    assert Segment([c]) == [c] && [c][1..] == "";
    assert Segment(s) == [c] + Segment("::") == [c];
    assert Segment(":") == "" && ":"[0..] == ":" && ""[0..] == "";
    var next := Child(Root, [c]);
    assert Reached(next, "::") == next;
    assert PathFrom(next, "::") == PathFrom(Child(next, ""), ":");
    if PathOk(PathFrom(Child(next, ""), ":")) { PathFromOk(Child(next, ""), ":"); }
  }

  /** A refused message can leave nodes behind that a peer never hears of. */
  lemma RefusedLeavesNodes()
    ensures var ms := [Message("a::", None, "text")];
      Accepted(ms) == [] && Child(Root, "a") in Replay(ms).log && Child(Root, "a") !in Replay(Accepted(ms)).log
      && !Covered(ms)
  {
    hide Reached, PathFrom, PathOk, Update, WellFormed;
    var m := Message("a::", None, "text");
    OneName('a');
    assert "a" + "::" == "a::" && ['a'] == "a";
    assert [m][..0] == [];
    ReplayWellFormed([]);
    UpdateMeaning(Replay([]).log, m);
    UpdateNodes(Replay([]).log, m, Child(Root, "a"));
    SameNodesIff([m]);
  }

  lemma OrderStep(before: seq<Message>, m: Message, c: char)
    requires Reached(Root, m.node) == Child(Root, [c]) && [c] !in Mentioned(before, Root)
    ensures Mentioned(before + [m], Root) == Mentioned(before, Root) + [[c]]
  {
    assert (before + [m])[..|before|] == before;
  }

  lemma OrderOfAll(refused: Message, a: Message, b: Message)
    requires Reached(Root, refused.node) == Reached(Root, b.node) == Child(Root, ['b'])
    requires Reached(Root, a.node) == Child(Root, ['a'])
    ensures Mentioned([refused, a, b], Root) == [['b'], ['a']]
  {
    hide Reached, Mentioned;
    assert [] + [refused] == [refused] && [refused] + [a] == [refused, a] && [refused, a] + [b] == [refused, a, b];
    NothingMentioned();
    OrderStep([], refused, 'b');
    OrderStep([refused], a, 'a');
    OrderAgain([refused, a], b, 'b');
  }

  lemma OrderOfTwo(a: Message, b: Message)
    requires Reached(Root, a.node) == Child(Root, ['a']) && Reached(Root, b.node) == Child(Root, ['b'])
    ensures Mentioned([a, b], Root) == [['a'], ['b']]
  {
    hide Reached, Mentioned;
    assert [] + [a] == [a] && [a] + [b] == [a, b];
    NothingMentioned();
    OrderStep([], a, 'a');
    OrderStep([a], b, 'b');
  }

  /** Even if the nodes are the same, the order of children need not be. */
  lemma OrderCanDiffer()
    ensures var ms := [Message("b::", None, ""), Message("a", None, ""), Message("b", None, "")];
      Covered(ms) && !SameOrder(ms)
  {
    hide Reached, PathFrom, PathOk, Mentioned, Accepted, IsAbove;
    var refused, a, b := Message("b::", None, ""), Message("a", None, ""), Message("b", None, "");
    OneName('a');
    OneName('b');
    assert "b" + "::" == "b::" && ['a'] == "a" && ['b'] == "b";
    OrderOfAll(refused, a, b);
    OrderOfTwo(a, b);
    Three(refused, a, b);
    assert [['a'], ['b']][0] == ['a'] && [['b'], ['a']][0] == ['b'];
    AboveSelf(Child(Root, "b"));
    AboveSelf(Child(Root, "a"));
    CoveredBy(refused, a, b);
  }

  lemma CoveredBy(refused: Message, a: Message, b: Message)
    requires Succeeds(a) && Succeeds(b)
    requires IsAbove(Reached(Root, refused.node), PathFrom(Root, b.node))
    requires IsAbove(Reached(Root, a.node), PathFrom(Root, a.node))
    requires IsAbove(Reached(Root, b.node), PathFrom(Root, b.node))
    ensures Covered([refused, a, b])
  {
    hide Reached, PathFrom, IsAbove, Succeeds;
    var ms := [refused, a, b];
    assert a in ms && b in ms;
  }

  lemma NothingMentioned()
    ensures Mentioned([], Root) == []
  {
  }

  lemma OrderAgain(before: seq<Message>, m: Message, c: char)
    requires Reached(Root, m.node) == Child(Root, [c]) && [c] in Mentioned(before, Root)
    ensures Mentioned(before + [m], Root) == Mentioned(before, Root)
  {
    assert (before + [m])[..|before|] == before;
  }

  lemma Three(refused: Message, a: Message, b: Message)
    requires !Succeeds(refused) && Succeeds(a) && Succeeds(b)
    ensures Accepted([refused, a, b]) == [a, b]
  {
    hide Accepted, Update, WellFormed, Succeeds, Crashes;
    var ms: seq<Message> := [];
    AcceptedStep(ms, refused);
    AcceptedStep([refused], a);
    AcceptedStep([refused, a], b);
    assert [] + [refused] == [refused] && [refused] + [a] == [refused, a] && [refused, a] + [b] == [refused, a, b];
    NothingAccepted();
  }

  lemma NothingAccepted()
    ensures Accepted([]) == []
  {
  }

  lemma AcceptedStep(ms: seq<Message>, m: Message)
    ensures Accepted(ms + [m]) == Accepted(ms) + if Succeeds(m) then [m] else []
  {
    hide Update, WellFormed, Succeeds, Crashes, Accepted;
    AcceptedMore(ms, m);
    ReplayWellFormed(ms);
    UpdateMeaning(Replay(ms).log, m);
  }
}
