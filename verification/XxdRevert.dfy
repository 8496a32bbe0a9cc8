/** huntype (external/xxd/xxd.c): reads a dump character by character and rebuilds the bytes. */
module XxdRevert {
  import opened Bytes
  import opened XxdFormat
  import CText

  // ---- the output file ----

  /** Writing at pos; a write behind the end of the file leaves zero bytes in between. */
  function PutAt(data: seq<byte>, pos: nat, b: byte): seq<byte> {
    if pos < |data| then data[pos := b] else data + Zeros(pos - |data|) + [b]
  }

  function ZeroFill(data: seq<byte>, pos: nat, target: int): seq<byte>
    decreases target - pos
  {
    if pos >= target then data else ZeroFill(PutAt(data, pos, 0), pos + 1, target)
  }

  lemma {:induction false} ZeroFillAtEnd(data: seq<byte>, target: int)
    requires |data| <= target
    ensures ZeroFill(data, |data|, target) == data + Zeros(target - |data|)
    decreases target - |data|
  {
    if |data| < target {
      var next := PutAt(data, |data|, 0);
      assert next == data + [0];
      ZeroFillAtEnd(next, target);
    }
  }

  /** A stdio stream opened for writing; pipes are not seekable. */
  class OutFile {
    var data: seq<byte>
    var pos: nat
    const seekable: bool

    constructor (seekable: bool)
      ensures data == [] && pos == 0 && this.seekable == seekable
    {
      data, pos := [], 0;
      this.seekable := seekable;
    }

    method Putc(b: byte)
      modifies this
      ensures data == PutAt(old(data), old(pos), b) && pos == old(pos) + 1
    {
      data, pos := PutAt(data, pos, b), pos + 1;
    }

    /** fseek relative to the current position; it fails on a pipe and before offset 0. */
    method SeekBy(delta: int) returns (ok: bool)
      modifies this
      ensures ok == (seekable && old(pos) + delta >= 0)
      ensures data == old(data) && pos == if ok then old(pos) + delta else old(pos)
    {
      ok := seekable && pos + delta >= 0;
      if ok { pos := pos + delta; }
    }
  }

  // ---- one character at a time ----

  datatype Mode = Mode(cols: nat, postscript: bool, base: int, seekable: bool)

  /** The locals of huntype between two characters. `skipping` is the inner loop that drops the
      rest of a line, `failed` the early return on a backward seek. */
  datatype Scan = Scan(n1: int, n2: int, ignoreGarbage: bool, p: nat, have: nat, want: int,
                       data: seq<byte>, skipping: bool, failed: bool)
  {
    ghost predicate Valid() {
      -1 <= n1 < 16 && -1 <= n2 < 16
    }
  }

  function Start(mode: Mode, data: seq<byte>): (st: Scan)
    ensures st.Valid()
  {
    Scan(-1, 0, true, mode.cols, 0, 0, data, false, false)
  }

  /** Moves the output position to base + want before a byte cell is looked at. */
  function Sync(mode: Mode, st: Scan): (r: Scan)
    ensures r == st.(have := r.have, data := r.data, failed := r.failed)
    ensures !r.failed && !st.failed ==> r.have == mode.base + r.want
  {
    var target := mode.base + st.want;
    if target == st.have then st
    else if mode.seekable && target >= 0 then st.(have := target)
    else if target < st.have then st.(failed := true)
    else st.(have := target, data := ZeroFill(st.data, st.have, target))
  }

  /** What happens to a cell when the two newest characters and the one before are known. */
  function Cell(mode: Mode, st: Scan, n3: int): (r: Scan)
    requires st.Valid()
    ensures r.Valid()
  {
    if st.n2 >= 0 && st.n1 >= 0 then
      var put := st.(data := PutAt(st.data, st.have, 16 * st.n2 + st.n1), have := st.have + 1,
                     want := st.want + 1, n1 := -1, p := st.p + 1);
      if put.p >= mode.cols && !mode.postscript then
        put.(want := 0, skipping := true, ignoreGarbage := true)
      else put
    else if st.n1 < 0 && st.n2 < 0 && n3 < 0 then
      st.(want := if mode.postscript then st.want else 0, skipping := true, ignoreGarbage := true)
    else st
  }

  predicate Ignored(mode: Mode, c: char) {
    c == '\r' || (mode.postscript && (c == ' ' || c == '\n' || c == '\t'))
  }

  function Step(mode: Mode, st: Scan, c: char): (r: Scan)
    requires st.Valid()
    ensures r.Valid()
  {
    if st.failed then st
    else if st.skipping then st.(skipping := c != '\n')
    else if Ignored(mode, c) then st
    else
      var v, n3 := DigitValue(c), st.n2;
      var shifted := st.(n1 := v, n2 := st.n1);
      if v < 0 && st.ignoreGarbage then shifted
      else
        var seen := shifted.(ignoreGarbage := false);
        if seen.p >= mode.cols && !mode.postscript then
          if v < 0 then seen.(p := 0) else seen.(want := 16 * seen.want + v)
        else
          var synced := Sync(mode, seen.(p := if seen.p >= mode.cols then 0 else seen.p));
          if synced.failed then synced else Cell(mode, synced, n3)
  }

  function Run(mode: Mode, st: Scan, text: string): (r: Scan)
    requires st.Valid()
    ensures r.Valid()
    decreases |text|
  {
    if text == [] then st else Run(mode, Step(mode, st, text[0]), text[1..])
  }

  lemma {:induction false} RunAppend(mode: Mode, st: Scan, a: string, b: string)
    requires st.Valid()
    ensures Run(mode, st, a + b) == Run(mode, Run(mode, st, a), b)
    decreases |a|
  {
    if a == [] {
      assert a + b == b;
    } else {
      assert (a + b)[1..] == a[1..] + b;
      RunAppend(mode, Step(mode, st, a[0]), a[1..], b);
    }
  }

  lemma {:induction false} RunFailed(mode: Mode, st: Scan, text: string)
    requires st.Valid() && st.failed
    ensures Run(mode, st, text) == st
  {
    if text != [] { RunFailed(mode, st, text[1..]); }
  }

  /** The file that reading a whole dump into data leaves; None when the output would have to move
      backwards and cannot. */
  function RevertInto(mode: Mode, data: seq<byte>, text: string): CText.Option<seq<byte>> {
    var end := Run(mode, Start(mode, data), text);
    if end.failed then CText.None else CText.Some(end.data)
  }

  function Revert(mode: Mode, text: string): CText.Option<seq<byte>> {
    RevertInto(mode, [], text)
  }

  // ---- the loop itself ----

  /** The seek in front of a cell, or zero bytes up to the wanted offset where seeking fails. */
  method MoveTo(fpo: OutFile, target: int, haveOff: nat, ghost mode: Mode, ghost st: Scan)
    returns (newHave: int, ok: bool)
    requires fpo.pos == haveOff == st.have && fpo.data == st.data && !st.failed
    requires mode.seekable == fpo.seekable && target == mode.base + st.want
    modifies fpo
    ensures ok == !Sync(mode, st).failed
    ensures fpo.data == Sync(mode, st).data
    ensures ok ==> newHave == fpo.pos == Sync(mode, st).have
  {
    newHave, ok := haveOff, true;
    if target != newHave {
      var moved := fpo.SeekBy(target - newHave);
      if moved { newHave := target; }
      if target < newHave { return newHave, false; }
      ghost var before, from := fpo.data, newHave;
      while newHave < target
        invariant fpo.pos == newHave && from <= newHave <= target
        invariant ZeroFill(before, from, target) == ZeroFill(fpo.data, newHave, target)
      {
        fpo.Putc(0);
        newHave := newHave + 1;
      }
    }
  }

  /** Reading on from st ends with the same file and the same outcome as goal. */
  ghost predicate LeadsTo(mode: Mode, st: Scan, rest: string, goal: Scan) {
    st.Valid() && Run(mode, st, rest).data == goal.data && Run(mode, st, rest).failed == goal.failed
  }

  lemma OneStep(mode: Mode, st: Scan, text: string, i: nat, goal: Scan)
    requires i < |text| && LeadsTo(mode, st, text[i..], goal)
    ensures LeadsTo(mode, Step(mode, st, text[i]), text[i + 1..], goal)
  {
    assert text[i..][1..] == text[i + 1..];
  }

  /** Drops the rest of a line and returns the position behind its line break. */
  method SkipLine(text: string, from: nat, ghost mode: Mode, ghost st: Scan, ghost goal: Scan)
    returns (i: nat, ghost next: Scan)
    requires from <= |text| && st.skipping && !st.failed && LeadsTo(mode, st, text[from..], goal)
    ensures from <= i <= |text|
    ensures '\n' !in text[from..if i > from then i - 1 else from]
    ensures i < |text| ==> i > from && text[i - 1] == '\n'
    ensures next == st.(skipping := false) && LeadsTo(mode, next, text[i..], goal)
  {
    i := from;
    while i < |text| && text[i] != '\n'
      invariant from <= i <= |text|
      invariant '\n' !in text[from..i]
      invariant LeadsTo(mode, st, text[i..], goal)
    {
      OneStep(mode, st, text, i, goal);
      assert text[from..i + 1] == text[from..i] + [text[i]];
      i := i + 1;
    }
    next := st.(skipping := false);
    if i < |text| {
      OneStep(mode, st, text, i, goal);
      i := i + 1;
    } else {
      assert text[i..] == [];
    }
  }

  lemma RunNothing(mode: Mode, st: Scan)
    requires st.Valid()
    ensures Run(mode, st, []) == st
  {
  }

  /** Returns 0, or 5 when the output would have to move backwards and cannot. */
  method Huntype(text: string, fpo: OutFile, cols: nat, postscript: bool, base: int)
    returns (code: int)
    requires cols >= 1 && fpo.pos == 0
    modifies fpo
    ensures var mode := Mode(cols, postscript, base, fpo.seekable);
      var end := Run(mode, Start(mode, old(fpo.data)), text);
      fpo.data == end.data && code == if end.failed then 5 else 0
  {
    hide Run, ZeroFill, PutAt;
    ghost var mode := Mode(cols, postscript, base, fpo.seekable);
    ghost var now := Start(mode, fpo.data);
    ghost var goal := Run(mode, now, text);
    var ignGarb, n1, n2, n3, p := true, -1, 0, 0, cols;
    var haveOff, wantOff := 0, 0;
    var i := 0;
    while i < |text|
      invariant i <= |text| && fpo.pos == haveOff
      invariant now.n1 == n1 && now.n2 == n2 && now.ignoreGarbage == ignGarb && now.p == p
      invariant now.have == haveOff && now.want == wantOff && now.data == fpo.data
      invariant !now.skipping && !now.failed
      invariant LeadsTo(mode, now, text[i..], goal)
    {
      var c := text[i];
      OneStep(mode, now, text, i, goal);
      ghost var was := now;
      now := Step(mode, now, c);
      i := i + 1;
      if c == '\r' { continue; }
      if postscript && (c == ' ' || c == '\n' || c == '\t') { continue; }
      n3 := n2;
      n2 := n1;
      n1 := DigitValue(c);
      ghost var seen := was.(n1 := n1, n2 := n2, ignoreGarbage := false);
      if n1 < 0 && ignGarb { continue; }
      ignGarb := false;
      if p >= cols {
        if !postscript {
          if n1 < 0 {
            p := 0;
            continue;
          }
          wantOff := wantOff * 16 + n1;
          continue;
        } else {
          p := 0;
        }
      }
      var ok;
      seen := seen.(p := p);
      haveOff, ok := MoveTo(fpo, base + wantOff, haveOff, mode, seen);
      if !ok {
        RunFailed(mode, now, text[i..]);
        return 5;
      }
      assert now == Cell(mode, Sync(mode, seen), n3);
      if n2 >= 0 && n1 >= 0 {
        fpo.Putc(n2 * 16 + n1);
        haveOff := haveOff + 1;
        wantOff := wantOff + 1;
        n1 := -1;
        p := p + 1;
        if p >= cols && !postscript {
          wantOff := 0;
          i, now := SkipLine(text, i, mode, now, goal);
          ignGarb := true;
        }
      } else if n1 < 0 && n2 < 0 && n3 < 0 {
        if !postscript { wantOff := 0; }
        i, now := SkipLine(text, i, mode, now, goal);
        ignGarb := true;
      }
    }
    assert text[i..] == [];
    RunNothing(mode, now);
    code := 0;
  }
}
