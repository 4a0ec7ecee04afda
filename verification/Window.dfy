/**
 * The 32-bit sliding windows of section 7.4 of RFC 8613, and what they stand for: the unbounded set of
 * sequence numbers accepted so far, with a cut-off 32 below its largest element.
 */
module Window {
  import opened Bytes
  import opened SeqNumber

  const WINDOW_SIZE: nat := 32

  /** A 32-bit word, bit 0 (the least significant) at index 0. */
  type Word32 = w: seq<bool> | |w| == 32 witness seq(32, _ => false)

  /** The word whose value is 0. */
  function ZeroWord(): Word32 {
    seq(32, _ => false)
  }

  /** `w << n`; a Rust shift by 32 or more panics, so callers must show the amount small. */
  function ShiftLeft(w: Word32, n: nat): Word32
    requires n < 32
  {
    seq(32, i => if 0 <= i - n < 32 then w[i - n] else false)
  }

  /** `w | (1 << n)`. */
  function OrBit(w: Word32, n: nat): Word32
    requires n < 32
  {
    w[n := true]
  }

  /** `w & (1 << n) != 0`. */
  predicate TestBit(w: Word32, n: nat)
    requires n < 32
  {
    w[n]
  }

  /**
   * One window: highest accepted number, bit `d` for `top - d`, and whether anything was accepted. The request
   * window has no such flag in the source and is a `Window` whose flag is always set.
   */
  datatype Window = Window(top: SeqNum, bits: Word32, initialized: bool)

  const FRESH_WINDOW := Window(0, ZeroWord(), false)

  const FRESH_REQUEST_WINDOW := Window(0, ZeroWord(), true)

  /** The check made before decryption. */
  predicate Reused(w: Window, s: SeqNum) {
    w.initialized && s <= w.top
    && (w.top - s >= WINDOW_SIZE || TestBit(w.bits, w.top - s))
  }

  /** The update made on acceptance; only ever reached after `Reused` said no. */
  function Mark(w: Window, s: SeqNum): Window
    requires !Reused(w, s)
  {
    if !w.initialized then Window(s, OrBit(ZeroWord(), 0), true)
    else if s > w.top then
      var n := s - w.top;
      Window(s, if n >= WINDOW_SIZE then OrBit(ZeroWord(), 0) else OrBit(ShiftLeft(w.bits, n), 0), true)
    else
      w.(bits := OrBit(w.bits, w.top - s))
  }

  /** `w` is the compressed form of the set `accepted`. */
  ghost predicate Represents(w: Window, accepted: set<SeqNum>) {
    && (!w.initialized ==> accepted == {})
    && (accepted != {} ==> w.top in accepted)
    && (accepted == {} && w.initialized ==> w.top == 0)
    && (forall s :: s in accepted ==> s <= w.top)
    && (w.initialized ==>
          forall d :: 0 <= d < 32 ==> (w.bits[d] <==> d <= w.top && w.top - d in accepted))
  }

  /** The rule the window stands for: seen before, or 32 or more below something seen before. */
  ghost predicate Rejects(accepted: set<SeqNum>, s: SeqNum) {
    s in accepted || exists a :: a in accepted && s + 32 <= a
  }

  lemma FreshRepresentsNothing()
    ensures Represents(FRESH_WINDOW, {})
    ensures Represents(FRESH_REQUEST_WINDOW, {})
  {
  }

  lemma ReusedIsRejected(w: Window, accepted: set<SeqNum>, s: SeqNum)
    requires Represents(w, accepted)
    ensures Reused(w, s) <==> Rejects(accepted, s)
  {
    if Reused(w, s) && w.top - s >= WINDOW_SIZE {
      assert w.top in accepted && s + 32 <= w.top;
    }
    if w.initialized && s <= w.top && w.top - s < WINDOW_SIZE {
      assert w.bits[w.top - s] <==> w.top - (w.top - s) in accepted;
    }
  }

  lemma MarkAddsOne(w: Window, accepted: set<SeqNum>, s: SeqNum)
    requires Represents(w, accepted)
    requires !Reused(w, s)
    ensures Represents(Mark(w, s), accepted + {s})
  {
    var m, after := Mark(w, s), accepted + {s};
    assert w.initialized && s <= w.top && accepted == {} ==> w.top == 0 == s;
    forall d | 0 <= d < 32
      ensures m.bits[d] <==> d <= m.top && m.top - d in after
    {
      if w.initialized && s > w.top && 0 <= d - (s - w.top) {
        var e := d - (s - w.top);
        assert w.bits[e] <==> e <= w.top && w.top - e in accepted;
      }
    }
  }

  /** Check-then-mark over a list of arrivals: the window and which arrivals were accepted. */
  function Run(w: Window, arrivals: seq<SeqNum>): (r: (Window, seq<bool>))
    ensures |r.1| == |arrivals|
  {
    if arrivals == [] then (w, [])
    else
      var last := |arrivals| - 1;
      var (before, verdicts) := Run(w, arrivals[..last]);
      if Reused(before, arrivals[last]) then (before, verdicts + [false])
      else (Mark(before, arrivals[last]), verdicts + [true])
  }

  /** The unbounded reference: the set of numbers accepted among `arrivals`, starting from `accepted`. */
  ghost function Accepted(accepted: set<SeqNum>, arrivals: seq<SeqNum>): set<SeqNum> {
    if arrivals == [] then accepted
    else
      var last := |arrivals| - 1;
      var before := Accepted(accepted, arrivals[..last]);
      if Rejects(before, arrivals[last]) then before else before + {arrivals[last]}
  }

  /** Over every run the window is the reference set, and every verdict is the reference verdict. */
  lemma {:induction false} RunRefinesSet(w: Window, accepted: set<SeqNum>, arrivals: seq<SeqNum>)
    requires Represents(w, accepted)
    ensures Represents(Run(w, arrivals).0, Accepted(accepted, arrivals))
    ensures forall i :: 0 <= i < |arrivals| ==>
              (Run(w, arrivals).1[i] <==> !Rejects(Accepted(accepted, arrivals[..i]), arrivals[i]))
  {
    if arrivals != [] {
      var last := |arrivals| - 1;
      var prefix := arrivals[..last];
      RunRefinesSet(w, accepted, prefix);
      var before := Run(w, prefix).0;
      ReusedIsRejected(before, Accepted(accepted, prefix), arrivals[last]);
      if !Reused(before, arrivals[last]) {
        MarkAddsOne(before, Accepted(accepted, prefix), arrivals[last]);
      }
      forall i | 0 <= i < |arrivals|
        ensures Run(w, arrivals).1[i] <==> !Rejects(Accepted(accepted, arrivals[..i]), arrivals[i])
      {
        if i < last {
          assert prefix[..i] == arrivals[..i];
        }
      }
    }
  }

  lemma {:induction false} AcceptedGrows(accepted: set<SeqNum>, arrivals: seq<SeqNum>, i: nat)
    requires i <= |arrivals|
    ensures Accepted(accepted, arrivals[..i]) <= Accepted(accepted, arrivals)
    decreases |arrivals|
  {
    if i == |arrivals| {
      assert arrivals[..i] == arrivals;
    } else {
      var prefix := arrivals[..|arrivals| - 1];
      AcceptedGrows(accepted, prefix, i);
      assert prefix[..i] == arrivals[..i];
    }
  }

  /** No run accepts one number twice. */
  lemma RunAcceptsAtMostOnce(w: Window, accepted: set<SeqNum>, arrivals: seq<SeqNum>, i: nat, j: nat)
    requires Represents(w, accepted)
    requires i < j < |arrivals| && arrivals[i] == arrivals[j]
    ensures !(Run(w, arrivals).1[i] && Run(w, arrivals).1[j])
  {
    RunRefinesSet(w, accepted, arrivals);
    if Run(w, arrivals).1[i] {
      assert arrivals[..i + 1][..i] == arrivals[..i];
      assert arrivals[i] in Accepted(accepted, arrivals[..i + 1]);
      AcceptedGrows(accepted, arrivals[..j], i + 1);
      assert arrivals[..j][..i + 1] == arrivals[..i + 1];
    }
  }
}
