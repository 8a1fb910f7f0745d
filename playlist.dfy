/** The frame playlist of the web viewer: ten file names built with
    three-digit zero padding, and a cursor that shows one name per tick and
    wraps around at the end of the list. Only the string and index logic is
    modelled; the image element and the timer are not. */
module Playlist {

  // ---------------------------------------------------------------------------
  // Decimal strings

  predicate IsDigit(c: char)
  {
    '0' <= c <= '9'
  }

  predicate AllDigits(s: string)
  {
    forall j :: 0 <= j < |s| ==> IsDigit(s[j])
  }

  function DigitChar(d: nat): (c: char)
    requires d < 10
    ensures IsDigit(c) && c as int - '0' as int == d
  {
    (d + '0' as int) as char
  }

  /** The decimal form of a natural number, as JavaScript's `String(n)` writes
      it below 10^21: no leading zero unless the number is 0. */
  function Digits(n: nat): (s: string)
    ensures |s| >= 1 && AllDigits(s)
    ensures n > 0 ==> s[0] != '0'
    decreases n
  {
    if n < 10 then [DigitChar(n)] else Digits(n / 10) + [DigitChar(n % 10)]
  }

  /** `String(i)` for an integer strictly between -10^21 and 10^21. */
  function IntToString(i: int): string
  {
    if i < 0 then "-" + Digits(-i) else Digits(i)
  }

  /** The number a string of decimal digits denotes (leading zeros allowed). */
  function Parse(s: string): nat
    requires AllDigits(s)
  {
    if s == [] then 0 else 10 * Parse(s[..|s| - 1]) + (s[|s| - 1] as int - '0' as int)
  }

  /** `s.slice(-k)` for `k > 0`: the last `k` characters, or all of `s` when
      it is shorter. */
  function SliceLast(s: string, k: nat): (r: string)
    requires k > 0
    ensures |r| == if |s| <= k then |s| else k
    ensures r == s[|s| - |r|..]
  {
    if |s| <= k then s else s[|s| - k..]
  }

  /** `("000" + i).slice(-3)`. */
  function Pad3(i: int): (r: string)
    ensures |r| == 3
    ensures 0 <= i ==> AllDigits(r)
  {
    SliceLast("000" + IntToString(i), 3)
  }

  // ---------------------------------------------------------------------------
  // What the padding denotes

  lemma {:induction false} ParseDigits(n: nat)
    ensures Parse(Digits(n)) == n
    decreases n
  {
    if n >= 10 {
      var s := Digits(n);
      assert s[..|s| - 1] == Digits(n / 10);
      ParseDigits(n / 10);
    }
  }

  /** Leading zeros do not change the value. */
  lemma {:induction false} ParseLeadingZeros(z: string, s: string)
    requires AllDigits(s) && forall j :: 0 <= j < |z| ==> z[j] == '0'
    ensures AllDigits(z + s) && Parse(z + s) == Parse(s)
    decreases |s|
  {
    if s == [] {
      assert z + s == z;
      AllZeros(z);
    } else {
      var t := z + s;
      assert t[..|t| - 1] == z + s[..|s| - 1];
      ParseLeadingZeros(z, s[..|s| - 1]);
    }
  }

  lemma {:induction false} AllZeros(z: string)
    requires forall j :: 0 <= j < |z| ==> z[j] == '0'
    ensures AllDigits(z) && Parse(z) == 0
    decreases |z|
  {
    if z != [] {
      AllZeros(z[..|z| - 1]);
    }
  }

  lemma MulAtLeast(k: int, n: int)
    requires k >= 1 && n > 0
    ensures k * n >= n
  {
    assert k * n == (k - 1) * n + n;
  }

  /** Quotient and remainder are the only such pair. */
  lemma DivModUnique(x: int, n: int, q: int, r: int)
    requires n > 0 && x == q * n + r && 0 <= r < n
    ensures x / n == q && x % n == r
  {
    var q', r' := x / n, x % n;
    assert x == q' * n + r';
    assert (q - q') * n == r' - r;
    if q > q' {
      MulAtLeast(q - q', n);
    } else if q < q' {
      MulAtLeast(q' - q, n);
    }
  }

  /** `10 * a + d` modulo `10 * m` keeps the low part of `a` and the digit. */
  lemma ShiftMod(a: nat, d: nat, m: nat)
    requires d < 10 && m > 0
    ensures (10 * a + d) % (10 * m) == 10 * (a % m) + d
  {
    var q, r := a / m, a % m;
    assert a == q * m + r;
    assert 10 * a + d == q * (10 * m) + (10 * r + d);
    DivModUnique(10 * a + d, 10 * m, q, 10 * r + d);
  }

  function Pow10(k: nat): (p: nat)
    ensures p >= 1
  {
    if k == 0 then 1 else 10 * Pow10(k - 1)
  }

  /** The last `k` digits of a digit string denote its value modulo `10^k`. */
  lemma {:induction false} ParseSuffix(s: string, k: nat)
    requires AllDigits(s) && k <= |s|
    ensures AllDigits(s[|s| - k..]) && Parse(s[|s| - k..]) == Parse(s) % Pow10(k)
    decreases k
  {
    var t := s[|s| - k..];
    assert AllDigits(t) by {
      forall j | 0 <= j < |t| ensures IsDigit(t[j]) {
        assert t[j] == s[|s| - k + j];
      }
    }
    if k == 0 {
      assert t == [];
    } else {
      var init := s[..|s| - 1];
      var d := s[|s| - 1] as int - '0' as int;
      assert t[..|t| - 1] == init[|init| - (k - 1)..];
      ParseSuffix(init, k - 1);
      ShiftMod(Parse(init), d, Pow10(k - 1));
    }
  }

  /** Numbers below 1000 have at most three digits. */
  lemma ShortDigits(n: nat)
    requires n < 1000
    ensures |Digits(n)| <= 3
  {
    if n >= 10 {
      if n >= 100 {
        assert |Digits(n / 10 / 10)| == 1;
      }
      assert |Digits(n / 10)| <= 2;
    }
  }

  /** For every non-negative `i` the three characters denote `i % 1000`
      (the program agrees below 10^21). */
  lemma Pad3Value(i: nat)
    ensures Parse(Pad3(i)) == i % 1000
  {
    var s := "000" + Digits(i);
    assert AllDigits(s) && |s| >= 3;
    ParseSuffix(s, 3);
    ParseLeadingZeros("000", Digits(i));
    ParseDigits(i);
    assert Pow10(3) == 1000;
  }

  /** For `0 <= i <= 999` the padding is the decimal form of `i` preceded by
      just enough zeros. */
  lemma Pad3IsZeroPadded(i: nat)
    requires i <= 999
    ensures |Digits(i)| <= 3
    ensures Pad3(i) == seq(3 - |Digits(i)|, _ => '0') + Digits(i)
  {
    ShortDigits(i);
    var s := "000" + Digits(i);
    assert Pad3(i) == s[|s| - 3..];
    assert s[|s| - 3..] == "000"[|Digits(i)|..] + Digits(i);
  }

  // ---------------------------------------------------------------------------
  // The playlist

  const PREFIX: string := "frames/frame_"
  const SUFFIX: string := ".jpg"
  const FRAME_COUNT: nat := 10

  function FrameName(i: int): string
  {
    PREFIX + Pad3(i) + SUFFIX
  }

  /** The number a frame name carries between the prefix and the extension. */
  function FrameNumber(name: string): (n: Option<nat>)
  {
    if |name| == |PREFIX| + 3 + |SUFFIX| && AllDigits(name[|PREFIX|..|PREFIX| + 3])
    then Some(Parse(name[|PREFIX|..|PREFIX| + 3])) else None
  }

  datatype Option<T> = None | Some(value: T)

  /** The list the loop builds: `frames[k]` names frame `k + 1`. */
  function Frames(): (frames: seq<string>)
    ensures |frames| == FRAME_COUNT
  {
    seq(FRAME_COUNT, k => FrameName(k + 1))
  }

  /** The loop over `i = 1 .. 10` pushing one name each. */
  method BuildFrames() returns (frames: seq<string>)
    ensures frames == Frames()
  {
    frames := [];
    var i := 1;
    while i <= 10
      invariant 1 <= i <= 11
      invariant frames == seq(i - 1, k => FrameName(k + 1))
    {
      var padded := Pad3(i);
      var name := PREFIX + padded + SUFFIX;
      assert name == FrameName(i);
      frames := frames + [name];
      assert frames[i - 1] == FrameName(i);
      i := i + 1;
    }
  }

  /** The names carry the numbers 1 to 10, in increasing order, so no two are
      equal. */
  lemma FramesNumbered(k: nat)
    requires k < FRAME_COUNT
    ensures FrameNumber(Frames()[k]) == Some(k + 1)
  {
    var name := Frames()[k];
    assert name[|PREFIX|..|PREFIX| + 3] == Pad3(k + 1);
    Pad3Value(k + 1);
  }

  lemma FramesIncreasing(j: nat, k: nat)
    requires j < k < FRAME_COUNT
    ensures FrameNumber(Frames()[j]).value < FrameNumber(Frames()[k]).value
    ensures Frames()[j] != Frames()[k]
  {
    FramesNumbered(j);
    FramesNumbered(k);
  }

  /** The first and the last names, written out. */
  lemma FramesEnds()
    ensures Frames()[0] == "frames/frame_001.jpg"
    ensures Frames()[9] == "frames/frame_010.jpg"
  {
    Pad3IsZeroPadded(1);
    Pad3IsZeroPadded(10);
    assert Digits(10) == Digits(1) + ['0'];
  }

  // ---------------------------------------------------------------------------
  // The cursor

  /** The index after `n` calls of `nextFrame` from `index`. */
  function Advance(index: nat, n: nat, count: nat): nat
    requires count > 0
  {
    if n == 0 then index else (Advance(index, n - 1, count) + 1) % count
  }

  /** After `n` calls from a valid index the cursor is `(index + n) % count`;
      so `count` calls return it to where it started. */
  lemma {:induction false} AdvanceClosed(index: nat, n: nat, count: nat)
    requires index < count
    ensures Advance(index, n, count) == (index + n) % count
    ensures n == count ==> Advance(index, n, count) == index
  {
    if n > 0 {
      AdvanceClosed(index, n - 1, count);
      AddOneMod(index + n - 1, count);
    } else {
      DivModUnique(index, count, 0, index);
    }
    if n == count {
      DivModUnique(index + n, count, 1, index);
    }
  }

  lemma AddOneMod(x: nat, count: nat)
    requires count > 0
    ensures (x % count + 1) % count == (x + 1) % count
  {
    var q, r := x / count, x % count;
    assert x == q * count + r;
    if r + 1 == count {
      assert x + 1 == (q + 1) * count + 0;
      DivModUnique(x + 1, count, q + 1, 0);
      DivModUnique(r + 1, count, 1, 0);
    } else {
      DivModUnique(x + 1, count, q, r + 1);
      DivModUnique(r + 1, count, 0, r + 1);
    }
  }

  /** The module-level state of the viewer: the list, `index`, and what the
      image element was last told to show. */
  class Player {
    const frames: seq<string>
    var index: int
    var src: string
    /** Every name shown so far, in order. */
    ghost var shown: seq<string>

    ghost predicate Valid()
      reads this
    {
      |frames| > 0 && 0 <= index < |frames|
    }

    /** The script's start-up: the list is built and `index` is 0. */
    constructor ()
      ensures Valid() && frames == Frames() && index == 0 && shown == []
    {
      var built := BuildFrames();
      frames := built;
      index := 0;
      src := "";
      shown := [];
    }

    /** `nextFrame`: show the current name, then move on by one, wrapping. */
    method NextFrame()
      requires Valid()
      modifies this
      ensures Valid()
      ensures src == old(frames[index]) && shown == old(shown) + [src]
      ensures index == (old(index) + 1) % |frames|
    {
      src := frames[index];
      shown := shown + [src];
      index := (index + 1) % |frames|;
    }
  }

  /** The names shown by `n` calls of `nextFrame` starting at `start`. */
  function Shown(frames: seq<string>, start: nat, n: nat): (r: seq<string>)
    requires start < |frames|
    ensures |r| == n
  {
    if n == 0 then []
    else
      AdvanceClosed(start, n - 1, |frames|);
      Shown(frames, start, n - 1) + [frames[Advance(start, n - 1, |frames|)]]
  }

  /** Call `t` shows the name `t` places after the start, wrapping. */
  lemma {:induction false} ShownAt(frames: seq<string>, start: nat, n: nat, t: nat)
    requires start < |frames| && t < n
    ensures (start + t) % |frames| < |frames|
    ensures Shown(frames, start, n)[t] == frames[(start + t) % |frames|]
    decreases n
  {
    if t < n - 1 {
      ShownAt(frames, start, n - 1, t);
    } else {
      AdvanceClosed(start, t, |frames|);
    }
  }

  /** As many calls as there are names show each name once: the list rotated
      to begin at the start. */
  lemma ShownIsRotation(frames: seq<string>, start: nat)
    requires start < |frames|
    ensures Shown(frames, start, |frames|) == frames[start..] + frames[..start]
  {
    var cycle, rotated := Shown(frames, start, |frames|), frames[start..] + frames[..start];
    forall t | 0 <= t < |frames|
      ensures cycle[t] == rotated[t]
    {
      ShownAt(frames, start, |frames|, t);
      if start + t < |frames| {
        DivModUnique(start + t, |frames|, 0, start + t);
      } else {
        DivModUnique(start + t, |frames|, 1, start + t - |frames|);
      }
    }
  }

  /** A full cycle of ten ticks shows every frame once, starting from the
      current one and wrapping, and leaves the cursor where it was. */
  method FullCycle(player: Player)
    requires player.Valid() && |player.frames| == FRAME_COUNT
    modifies player
    ensures player.Valid() && player.index == old(player.index)
    ensures player.shown == old(player.shown) + player.frames[old(player.index)..] + player.frames[..old(player.index)]
  {
    ghost var start: nat, before := player.index, player.shown;
    var n := 0;
    while n < FRAME_COUNT
      invariant 0 <= n <= FRAME_COUNT
      invariant player.Valid()
      invariant player.index == Advance(start, n, FRAME_COUNT)
      invariant player.shown == before + Shown(player.frames, start, n)
    {
      player.NextFrame();
      n := n + 1;
    }
    AdvanceClosed(start, FRAME_COUNT, FRAME_COUNT);
    ShownIsRotation(player.frames, start);
  }
}
