/** Choosing the presentation forms of Arabic letters, in place. The loop reads the buffer in reading order,
    which is its index order for right-to-left output and the opposite for left-to-right output; a lam-alef
    pair becomes one ligature and the loop goes back to it. The specification is the same machine on the
    sequence of units in reading order. */
module ArabicShaping {

  import opened ArabicTables

  /** What is known of the next unit that matters for linking. */
  datatype Ahead = Unknown | At(pos: nat) | Beyond

  datatype Machine = Machine(buf: seq<nat>, ix: nat, curr: nat, prev: nat, last: nat, next: nat,
                             lastPos: nat, nx: Ahead)

  predicate InRange(m: Machine) { m.ix < |m.buf| && m.lastPos < |m.buf| }

  /** The next unit from a place on that matters for linking. */
  function Seek(buf: seq<nat>, at: nat): (a: Ahead)
    requires at <= |buf|
    ensures a.At? ==> at <= a.pos < |buf|
    decreases |buf| - at
  {
    if at == |buf| then Beyond
    else if !Irrelevant(Link(buf[at])) then At(at)
    else Seek(buf, at + 1)
  }

  lemma {:induction false} SeekFacts(buf: seq<nat>, at: nat)
    requires at <= |buf|
    ensures Seek(buf, at).At? ==> at <= Seek(buf, at).pos < |buf| && !Irrelevant(Link(buf[Seek(buf, at).pos]))
    ensures forall k :: at <= k < (if Seek(buf, at).At? then Seek(buf, at).pos else |buf|) ==> Irrelevant(Link(buf[k]))
    ensures !Seek(buf, at).Unknown?
    decreases |buf| - at
  {
    hide Link, Irrelevant;
    if at < |buf| && Irrelevant(Link(buf[at])) {
      SeekFacts(buf, at + 1);
    }
  }

  function Look(m: Machine): Machine
    requires InRange(m)
  {
    if !m.nx.Unknown? then m
    else
      var a := Seek(m.buf, m.ix + 1);
      m.(nx := a, next := if a.At? then Link(m.buf[a.pos]) else 0)
  }

  /** The unit at a place goes, a space comes at the end. */
  function Dropped(buf: seq<nat>, i: nat): seq<nat>
    requires i < |buf|
  {
    buf[..i] + buf[i + 1..] + [Space]
  }

  /** An alef after a lam: the ligature takes the place of the lam. */
  function Merge(m: Machine): (r: Machine)
    requires InRange(m)
    ensures InRange(r) && |r.buf| == |m.buf|
  {
    if !(IsAlef(m.curr) && IsLam(m.last)) then m
    else
      var w := Ligature(m.buf[m.ix]);
      var m' := if w == 0 then m else m.(buf := Dropped(m.buf[m.lastPos := w], m.ix), ix := m.lastPos);
      m'.(last := m.prev, curr := Link(w), nx := Unknown)
  }

  function Shaped(m: Machine): (r: Machine)
    requires InRange(m)
    ensures InRange(r) && |r.buf| == |m.buf|
  {
    if !HasShapes(m.curr) then m
    else
      var m' := Merge(Look(m));
      m'.(buf := m'.buf[m'.ix := Form(m'.next, m'.last, m'.curr)])
  }

  /** The form of a mark depends on whether it stands on a connection. */
  function MarkForm(x: nat, next: nat, last: nat): nat
    requires IsMark(x)
  {
    var onLink := last % 4 == 3 && (next % 4 == 1 || next % 4 == 3) && !(IsAlef(next) && IsLam(last))
                  && x != 0x064C && x != 0x064D;
    0xFE70 + 2 * (x - 0x064B) + if onLink then 1 else 0
  }

  function Noted(m: Machine): (r: Machine)
    requires InRange(m)
    ensures InRange(r) && |r.buf| == |m.buf| && r.ix == m.ix
  {
    if !Irrelevant(m.curr) then m.(prev := m.last, last := m.curr, lastPos := m.ix)
    else if IsMark(m.buf[m.ix]) then m.(buf := m.buf[m.ix := MarkForm(m.buf[m.ix], m.next, m.last)])
    else m
  }

  /** On to the next unit. Its link is known when it is the one that was looked ahead to; the place that stands
      for "no such unit" is 30000. */
  function Moved(m: Machine, beyond: int): Machine
    requires InRange(m)
  {
    var ix := m.ix + 1;
    if m.nx == At(ix) || (m.nx.Beyond? && ix == beyond) then m.(ix := ix, curr := m.next, nx := Unknown)
    else m.(ix := ix, curr := if ix < |m.buf| then Link(m.buf[ix]) else m.curr)
  }

  function Step(m: Machine, beyond: int): (r: Machine)
    requires InRange(m)
    ensures |r.buf| == |m.buf| && r.lastPos < |r.buf| && r.ix <= |r.buf|
  {
    Moved(Noted(Shaped(m)), beyond)
  }

  // ------------------------------------------------------------------ termination

  /** The alefs that can still be merged. */
  function Alefs(buf: seq<nat>): nat
  {
    if buf == [] then 0 else (if Ligature(buf[0]) != 0 then 1 else 0) + Alefs(buf[1..])
  }

  lemma {:induction false} AlefsConcat(a: seq<nat>, b: seq<nat>)
    ensures Alefs(a + b) == Alefs(a) + Alefs(b)
  {
    if a == [] {
      assert a + b == b;
    } else {
      assert (a + b)[1..] == a[1..] + b;
      AlefsConcat(a[1..], b);
    }
  }

  lemma AlefsAt(buf: seq<nat>, i: nat)
    requires i < |buf|
    ensures Alefs(buf) == Alefs(buf[..i]) + (if Ligature(buf[i]) != 0 then 1 else 0) + Alefs(buf[i + 1..])
  {
    assert buf == buf[..i] + buf[i..];
    AlefsConcat(buf[..i], buf[i..]);
  }

  lemma AlefsUpdate(buf: seq<nat>, i: nat, y: nat)
    requires i < |buf| && Ligature(y) == 0
    ensures Alefs(buf[i := y]) == Alefs(buf) - if Ligature(buf[i]) != 0 then 1 else 0
  {
    AlefsAt(buf, i);
    AlefsAt(buf[i := y], i);
    assert buf[i := y][..i] == buf[..i] && buf[i := y][i + 1..] == buf[i + 1..];
  }

  lemma AlefsDropped(buf: seq<nat>, i: nat)
    requires i < |buf|
    ensures Alefs(Dropped(buf, i)) == Alefs(buf) - if Ligature(buf[i]) != 0 then 1 else 0
  {
    AlefsAt(buf, i);
    AlefsConcat(buf[..i], buf[i + 1..]);
    AlefsConcat(buf[..i] + buf[i + 1..], [Space]);
  }

  lemma LigatureIsNoAlef(x: nat)
    ensures Ligature(Ligature(x)) == 0
  {}

  lemma MergeLosesAlef(m: Machine)
    requires InRange(m) && Merge(m).ix != m.ix
    ensures Alefs(Merge(m).buf) < Alefs(m.buf)
  {
    var w := Ligature(m.buf[m.ix]);
    LigatureIsNoAlef(m.buf[m.ix]);
    AlefsUpdate(m.buf, m.lastPos, w);
    AlefsDropped(m.buf[m.lastPos := w], m.ix);
  }

  lemma MergeKeepsAlefs(m: Machine)
    requires InRange(m)
    ensures Alefs(Merge(m).buf) <= Alefs(m.buf)
  {
    var w := Ligature(m.buf[m.ix]);
    LigatureIsNoAlef(m.buf[m.ix]);
    if IsAlef(m.curr) && IsLam(m.last) && w != 0 {
      AlefsUpdate(m.buf, m.lastPos, w);
      AlefsDropped(m.buf[m.lastPos := w], m.ix);
    }
  }

  /** Each step merges an alef away, or moves on: the loop ends. */
  lemma StepProgress(m: Machine, beyond: int)
    requires InRange(m)
    ensures var r := Step(m, beyond);
            Alefs(r.buf) < Alefs(m.buf) || (Alefs(r.buf) <= Alefs(m.buf) && r.ix == m.ix + 1)
  {
    hide Link, Ligature, Alefs, Dropped, Merge;
    var m1 := Shaped(m);
    if HasShapes(m.curr) {
      var l := Look(m);
      var m' := Merge(l);
      MergeKeepsAlefs(l);
      if m'.ix != l.ix {
        MergeLosesAlef(l);
      }
      FormIsNoAlef(m'.next, m'.last, m'.curr);
      AlefsUpdate(m'.buf, m'.ix, Form(m'.next, m'.last, m'.curr));
    }
    if Irrelevant(m1.curr) && IsMark(m1.buf[m1.ix]) {
      MarkFormIsNoAlef(m1.buf[m1.ix], m1.next, m1.last);
      AlefsUpdate(m1.buf, m1.ix, MarkForm(m1.buf[m1.ix], m1.next, m1.last));
    }
  }

  lemma FormIsNoAlef(next: nat, last: nat, curr: nat)
    ensures Ligature(Form(next, last, curr)) == 0
  {
    hide ShapeOf;
  }

  lemma MarkFormIsNoAlef(x: nat, next: nat, last: nat)
    requires IsMark(x)
    ensures Ligature(MarkForm(x, next, last)) == 0
  {}

  function Run(m: Machine, beyond: int): seq<nat>
    requires m.ix <= |m.buf| && (m.ix < |m.buf| ==> InRange(m))
    decreases Alefs(m.buf), |m.buf| - m.ix
  {
    if m.ix == |m.buf| then m.buf
    else
      StepProgress(m, beyond);
      Run(Step(m, beyond), beyond)
  }

  function Begin(buf: seq<nat>): Machine
    requires |buf| > 0
  {
    Machine(buf, 0, Link(buf[0]), 0, 0, 0, 0, Unknown)
  }

  /** The units, in reading order, with their presentation forms. */
  function ShapedText(buf: seq<nat>, beyond: int): seq<nat>
  {
    if buf == [] then [] else Run(Begin(buf), beyond)
  }

  // ------------------------------------------------------------------ the loop on the buffer

  /** The place in the buffer of a place in reading order. */
  function Raw(n: nat, rtl: bool, p: int): int { if rtl then p else n - 1 - p }

  function InOrder(s: seq<nat>, rtl: bool): (r: seq<nat>)
    ensures |r| == |s|
  {
    if rtl then s else seq(|s|, i requires 0 <= i < |s| => s[|s| - 1 - i])
  }

  lemma InOrderAt(s: seq<nat>, rtl: bool, p: nat)
    requires p < |s|
    ensures 0 <= Raw(|s|, rtl, p) < |s| && InOrder(s, rtl)[p] == s[Raw(|s|, rtl, p)]
  {}

  lemma InOrderUpdate(s: seq<nat>, rtl: bool, p: nat, v: nat)
    requires p < |s|
    ensures 0 <= Raw(|s|, rtl, p) < |s|
    ensures InOrder(s[Raw(|s|, rtl, p) := v], rtl) == InOrder(s, rtl)[p := v]
  {}

  /** The raw loop variable for what is known of the next unit. */
  predicate Stands(n: nat, rtl: bool, nx: int, a: Ahead)
  {
    match a
    case Unknown => nx == -2
    case At(pos) => pos < n && nx == Raw(n, rtl, pos)
    case Beyond => nx == 30000
  }

  function BeyondPlace(n: nat, rtl: bool): int { Raw(n, rtl, 30000) }

  method Lookahead(str: array<nat>, rtl: bool, ix: int, ghost p: nat) returns (nextLink: nat, nx: int)
    requires p < str.Length && ix == Raw(str.Length, rtl, p)
    ensures var a := Seek(InOrder(str[..], rtl), p + 1);
            && !a.Unknown? && Stands(str.Length, rtl, nx, a)
            && nextLink == if a.At? then Link(InOrder(str[..], rtl)[a.pos]) else 0
  {
    hide Link, InOrder, Irrelevant;
    var n := str.Length;
    ghost var buf := InOrder(str[..], rtl);
    var step := if rtl then 1 else -1;
    var iEnd := if rtl then n else -1;
    var nw := ix + step;
    ghost var q := p + 1;
    nx := -2;
    nextLink := 0;
    while nx < 0
      invariant p < q <= n && nw == Raw(n, rtl, q)
      invariant nx == -2 || (nx >= 0 && !Seek(buf, p + 1).Unknown? && Stands(n, rtl, nx, Seek(buf, p + 1)))
      invariant nx < 0 ==> Seek(buf, p + 1) == Seek(buf, q)
      invariant nx >= 0 ==> nextLink == if Seek(buf, p + 1).At? then Link(buf[Seek(buf, p + 1).pos]) else 0
      decreases if nx < 0 then n + 1 - q else 0
    {
      if nw == iEnd {
        nextLink := 0;
        nx := 30000;
      } else {
        InOrderAt(str[..], rtl, q);
        nextLink := Link(str[nw]);
        if !Irrelevant(nextLink) {
          nx := nw;
        } else {
          nw := nw + step;
          q := q + 1;
        }
      }
    }
  }

  /** The unit goes, the units after it move up, a space comes last; for left-to-right output all of it at the
      other end of the buffer. */
  method DropUnit(str: array<nat>, rtl: bool, ix: int, ghost p: nat)
    requires p < str.Length && ix == Raw(str.Length, rtl, p)
    modifies str
    ensures InOrder(str[..], rtl) == Dropped(old(InOrder(str[..], rtl)), p)
  {
    if rtl {
      var h := ix;
      while h < str.Length - 1
        invariant ix <= h <= str.Length - 1
        invariant forall k :: 0 <= k < ix ==> str[k] == old(str[k])
        invariant forall k :: ix <= k < h ==> str[k] == old(str[k + 1])
        invariant forall k :: h <= k < str.Length ==> str[k] == old(str[k])
      {
        str[h] := str[h + 1];
        h := h + 1;
      }
      str[str.Length - 1] := Space;
    } else {
      var h := ix;
      while h > 0
        invariant 0 <= h <= ix
        invariant forall k :: ix < k < str.Length ==> str[k] == old(str[k])
        invariant forall k :: h < k <= ix ==> str[k] == old(str[k - 1])
        invariant forall k :: 0 <= k <= h ==> str[k] == old(str[k])
      {
        str[h] := str[h - 1];
        h := h - 1;
      }
      str[0] := Space;
    }
    assert InOrder(str[..], rtl) == Dropped(old(InOrder(str[..], rtl)), p);
  }

  /** The variables of the loop; places are places in the buffer. */
  datatype Vars = Vars(ix: int, curr: nat, prev: nat, last: nat, next: nat, lastPos: int, nx: int)

  predicate Mirrors(v: Vars, m: Machine, n: nat, rtl: bool)
  {
    && |m.buf| == n && m.lastPos < n && m.ix <= n
    && v.ix == Raw(n, rtl, m.ix) && v.lastPos == Raw(n, rtl, m.lastPos)
    && v.curr == m.curr && v.prev == m.prev && v.last == m.last && v.next == m.next
    && Stands(n, rtl, v.nx, m.nx)
  }

  /** The form of the current letter, after merging it with a lam before it. */
  method ShapeUnit(str: array<nat>, rtl: bool, v: Vars, ghost m: Machine) returns (r: Vars)
    requires m.ix < |m.buf| && Mirrors(v, m, str.Length, rtl) && InOrder(str[..], rtl) == m.buf
    requires HasShapes(v.curr)
    modifies str
    ensures Mirrors(r, Shaped(m), str.Length, rtl) && InOrder(str[..], rtl) == Shaped(m).buf
  {
    hide Link, Ligature, InOrder, Form, Seek;
    r := v;
    if v.nx < 0 {
      var nextLink, nx := Lookahead(str, rtl, v.ix, m.ix);
      r := r.(next := nextLink, nx := nx);
    }
    ghost var l := Look(m);
    assert Mirrors(r, l, str.Length, rtl);
    r := MergeUnit(str, rtl, r, l);
    ghost var m' := Merge(l);
    InOrderUpdate(str[..], rtl, m'.ix, Form(r.next, r.last, r.curr));
    hide Merge;
    str[r.ix] := Form(r.next, r.last, r.curr);
  }

  method MergeUnit(str: array<nat>, rtl: bool, v: Vars, ghost m: Machine) returns (r: Vars)
    requires m.ix < |m.buf| && Mirrors(v, m, str.Length, rtl) && InOrder(str[..], rtl) == m.buf
    modifies str
    ensures Mirrors(r, Merge(m), str.Length, rtl) && InOrder(str[..], rtl) == Merge(m).buf
  {
    hide Link, Ligature, InOrder;
    r := v;
    if IsAlef(v.curr) && IsLam(v.last) {
      InOrderAt(str[..], rtl, m.ix);
      var w := Ligature(str[v.ix]);
      if w != 0 {
        InOrderUpdate(str[..], rtl, m.lastPos, w);
        str[v.lastPos] := w;
        DropUnit(str, rtl, v.ix, m.ix);
        r := r.(ix := v.lastPos);
      }
      r := r.(last := v.prev, curr := Link(w), nx := -2);
    }
  }

  /** A letter is remembered; a mark gets its form. */
  method NoteUnit(str: array<nat>, rtl: bool, v: Vars, ghost m: Machine) returns (r: Vars)
    requires m.ix < |m.buf| && Mirrors(v, m, str.Length, rtl) && InOrder(str[..], rtl) == m.buf
    modifies str
    ensures Mirrors(r, Noted(m), str.Length, rtl) && InOrder(str[..], rtl) == Noted(m).buf
  {
    hide Link, InOrder;
    r := v;
    InOrderAt(str[..], rtl, m.ix);
    if !Irrelevant(v.curr) {
      r := r.(prev := v.last, last := v.curr, lastPos := v.ix);
    } else if IsMark(str[v.ix]) {
      var form := MarkForm(str[v.ix], v.next, v.last);
      InOrderUpdate(str[..], rtl, m.ix, form);
      str[v.ix] := form;
    }
  }

  method MoveOn(str: array<nat>, rtl: bool, v: Vars, ghost m: Machine) returns (r: Vars)
    requires m.ix < |m.buf| && Mirrors(v, m, str.Length, rtl) && InOrder(str[..], rtl) == m.buf
    ensures Mirrors(r, Moved(m, BeyondPlace(str.Length, rtl)), str.Length, rtl)
  {
    hide Link, InOrder;
    var iEnd := if rtl then str.Length else -1;
    r := v.(ix := if rtl then v.ix + 1 else v.ix - 1);
    if r.ix == r.nx {
      r := r.(curr := r.next, nx := -2);
    } else if r.ix != iEnd {
      InOrderAt(str[..], rtl, m.ix + 1);
      r := r.(curr := Link(str[r.ix]));
    }
  }

  /** The shaping of a buffer, in either direction: the loop ends, stays inside the buffer, and in reading order
      its result is the same for both directions. */
  method ShapingRoutine(str: array<nat>, rtl: bool)
    modifies str
    ensures InOrder(str[..], rtl) == ShapedText(old(InOrder(str[..], rtl)), BeyondPlace(str.Length, rtl))
  {
    hide Link, InOrder, Shaped, Noted, Moved, Alefs;
    var n := str.Length;
    if n == 0 {
      return;
    }
    var ix := if rtl then 0 else n - 1;
    var iEnd := if rtl then n else -1;
    ghost var beyond := BeyondPlace(n, rtl);
    InOrderAt(str[..], rtl, 0);
    var v := Vars(ix, Link(str[ix]), 0, 0, 0, ix, -2);
    ghost var m := Begin(InOrder(str[..], rtl));
    while v.ix != iEnd
      invariant Mirrors(v, m, n, rtl) && InOrder(str[..], rtl) == m.buf
      invariant Run(m, beyond) == ShapedText(old(InOrder(str[..], rtl)), beyond)
      decreases Alefs(m.buf), n - m.ix
    {
      StepProgress(m, beyond);
      ghost var m1 := Shaped(m);
      if HasShapes(v.curr) {
        v := ShapeUnit(str, rtl, v, m);
      } else {
        NotShaped(m);
      }
      v := NoteUnit(str, rtl, v, m1);
      v := MoveOn(str, rtl, v, Noted(m1));
      MovedKeepsBuffer(Noted(m1), beyond);
      m := Step(m, beyond);
    }
  }

  lemma NotShaped(m: Machine)
    requires InRange(m) && !HasShapes(m.curr)
    ensures Shaped(m) == m
  {}

  lemma MovedKeepsBuffer(m: Machine, beyond: int)
    requires InRange(m)
    ensures Moved(m, beyond).buf == m.buf
  {}
}
