/** The clipboard capability contract (open, close, empty, has, get, add,
    getTime) as one concrete class: a map from format to payload, a session
    flag, and the platform's answers to open and empty. */
module Clipboards {
  import opened ByteOrder

  /** kNumFormats: the closed set of formats this build knows. */
  const NumFormats: nat := 3

  /** EFormat: an identifier in [0, kNumFormats). */
  type Format = f: nat | f < NumFormats

  /** An opaque payload. */
  type Payload = seq<byte>

  /** The opaque session token passed to open. */
  type Time = nat

  /** The formats of `m` below `f`, in ascending order: the order in which
      `for (format = 0; format != kNumFormats; ++format) if (has(format))`
      visits them. */
  function HeldBelow(m: map<Format, Payload>, f: nat): (fs: seq<Format>)
    requires f <= NumFormats
  {
    if f == 0 then []
    else HeldBelow(m, f - 1) + (if f - 1 in m then [f - 1] else [])
  }

  /** HeldBelow lists exactly the formats of `m` below `f`, each once,
      strictly ascending. */
  lemma HeldBelowFacts(m: map<Format, Payload>, f: nat)
    requires f <= NumFormats
    ensures |HeldBelow(m, f)| <= f
    ensures forall i :: 0 <= i < |HeldBelow(m, f)| ==> HeldBelow(m, f)[i] < f && HeldBelow(m, f)[i] in m
    ensures forall i, j :: 0 <= i < j < |HeldBelow(m, f)| ==> HeldBelow(m, f)[i] < HeldBelow(m, f)[j]
    ensures forall g: Format :: g in m && g < f ==> g in HeldBelow(m, f)
  {
    HeldBelowBounded(m, f);
    HeldBelowAscending(m, f);
    HeldBelowComplete(m, f);
  }

  lemma {:induction false} HeldBelowBounded(m: map<Format, Payload>, f: nat)
    requires f <= NumFormats
    ensures |HeldBelow(m, f)| <= f
    ensures forall i :: 0 <= i < |HeldBelow(m, f)| ==> HeldBelow(m, f)[i] < f && HeldBelow(m, f)[i] in m
    decreases f
  {
    if f > 0 {
      var g: Format := f - 1;
      var ids := HeldBelow(m, g);
      HeldBelowBounded(m, g);
      if g in m {
        var held := ids + [g];
        assert HeldBelow(m, f) == held;
        assert forall i :: 0 <= i < |ids| ==> held[i] == ids[i];
      } else {
        assert HeldBelow(m, f) == ids;
      }
    }
  }

  lemma {:induction false} HeldBelowAscending(m: map<Format, Payload>, f: nat)
    requires f <= NumFormats
    ensures forall i, j :: 0 <= i < j < |HeldBelow(m, f)| ==> HeldBelow(m, f)[i] < HeldBelow(m, f)[j]
    decreases f
  {
    if f > 0 {
      var g: Format := f - 1;
      var ids := HeldBelow(m, g);
      HeldBelowAscending(m, g);
      HeldBelowBounded(m, g);
      if g in m {
        var held := ids + [g];
        assert HeldBelow(m, f) == held;
        assert forall i :: 0 <= i < |ids| ==> held[i] == ids[i] < g;
      } else {
        assert HeldBelow(m, f) == ids;
      }
    }
  }

  lemma {:induction false} HeldBelowComplete(m: map<Format, Payload>, f: nat)
    requires f <= NumFormats
    ensures forall g: Format :: g in m && g < f ==> g in HeldBelow(m, f)
    decreases f
  {
    if f > 0 {
      var g: Format := f - 1;
      var ids := HeldBelow(m, g);
      HeldBelowComplete(m, g);
      if g in m {
        assert HeldBelow(m, f) == ids + [g];
      } else {
        assert HeldBelow(m, f) == ids;
      }
    }
  }

  /** Every held format, ascending. */
  function Held(m: map<Format, Payload>): (fs: seq<Format>)
  {
    HeldBelow(m, NumFormats)
  }

  /** The part of `m` below `f`. */
  function Below(m: map<Format, Payload>, f: nat): (below: map<Format, Payload>)
  {
    map g | g in m && g < f :: m[g]
  }

  /** The formats of `m` below `f`, as a set. */
  function KeysBelow(m: map<Format, Payload>, f: nat): (keys: set<Format>)
  {
    set g | g in m && g < f
  }

  /** Held visits each held format exactly once: it has as many entries as
      the clipboard holds formats. */
  lemma {:induction false} HeldCount(m: map<Format, Payload>)
    ensures |Held(m)| == |m|
  {
    HeldBelowCount(m, NumFormats);
    assert KeysBelow(m, NumFormats) == m.Keys;
  }

  lemma {:induction false} HeldBelowCount(m: map<Format, Payload>, f: nat)
    requires f <= NumFormats
    ensures |HeldBelow(m, f)| == |KeysBelow(m, f)|
    decreases f
  {
    if f == 0 {
      assert KeysBelow(m, f) == {};
    } else {
      HeldBelowCount(m, f - 1);
      var g: Format := f - 1;
      assert g !in KeysBelow(m, g);
      if g in m {
        assert KeysBelow(m, f) == KeysBelow(m, g) + {g};
      } else {
        assert KeysBelow(m, f) == KeysBelow(m, g);
      }
    }
  }

  class Clipboard {
    /** The payload held for each format ("has" is membership). */
    var contents: map<Format, Payload>
    /** Whether a session is open. */
    var isOpen: bool
    /** What getTime reports. */
    var time: Time
    /** The time supplied to the most recent successful open. */
    var sessionTime: Time
    /** Sessions opened and closed so far. */
    ghost var opens: nat
    ghost var closes: nat
    /** The formats fetched with get, in order. */
    ghost var fetchLog: seq<nat>
    /** Whether the platform grants the clipboard lock when it is free. */
    const lockAvailable: bool
    /** Whether the platform lets empty clear the clipboard. */
    const clearAllowed: bool

    /** Every session opened has been closed, except the current one. */
    ghost predicate Valid()
      reads this
    {
      opens == closes + (if isOpen then 1 else 0)
    }

    /** Whether open would succeed now: no session is open (open is not
        reentrant, a nested open is refused) and the platform grants it. */
    predicate CanOpen()
      reads this
    {
      !isOpen && lockAvailable
    }

    constructor (lockAvailable: bool, clearAllowed: bool, time: Time)
      ensures Valid() && !isOpen && opens == 0 && fetchLog == []
      ensures contents == map[] && this.time == time
      ensures this.lockAvailable == lockAvailable && this.clearAllowed == clearAllowed
    {
      contents := map[];
      isOpen := false;
      this.time := time;
      sessionTime := time;
      opens, closes := 0, 0;
      fetchLog := [];
      this.lockAvailable := lockAvailable;
      this.clearAllowed := clearAllowed;
    }

    method Open(t: Time) returns (ok: bool)
      requires Valid()
      modifies this`isOpen, this`opens, this`sessionTime
      ensures Valid()
      ensures ok == old(CanOpen())
      ensures ok ==> isOpen && opens == old(opens) + 1 && sessionTime == t
      ensures !ok ==> isOpen == old(isOpen) && opens == old(opens) && sessionTime == old(sessionTime)
    {
      ok := CanOpen();
      if ok {
        isOpen := true;
        opens := opens + 1;
        sessionTime := t;
      }
    }

    method Close()
      requires Valid() && isOpen
      modifies this`isOpen, this`closes
      ensures Valid() && !isOpen && closes == old(closes) + 1
    {
      isOpen := false;
      closes := closes + 1;
    }

    /** Clears every format, unless the platform refuses. */
    method Empty() returns (ok: bool)
      requires isOpen
      modifies this`contents
      ensures ok == clearAllowed
      ensures contents == if ok then map[] else old(contents)
    {
      ok := clearAllowed;
      if ok {
        contents := map[];
      }
    }

    method Has(f: Format) returns (b: bool)
      requires isOpen
      ensures b == (f in contents)
    {
      b := f in contents;
    }

    /** Callers must gate get with has. */
    method Get(f: Format) returns (p: Payload)
      requires isOpen && f in contents
      modifies this`fetchLog
      ensures p == contents[f] && fetchLog == old(fetchLog) + [f]
    {
      p := contents[f];
      fetchLog := fetchLog + [f];
    }

    /** Stores or replaces the payload of `f`. */
    method Add(f: Format, p: Payload)
      requires isOpen
      modifies this`contents
      ensures contents == old(contents)[f := p]
    {
      contents := contents[f := p];
    }

    method GetTime() returns (t: Time)
      ensures t == time
    {
      t := time;
    }
  }
}
