/**
 File names of the burger image sequence and the preload counter. Frame
 index `i` (0..47) asks for source frame `4 * i`, written in decimal and
 left-padded with `0` to three characters, with delay tag `041` when the
 frame number is 1 modulo 3 and `042` otherwise. Every index is requested
 once, in order; the loaded counter rises on success and on failure alike,
 and the progress shown is `Math.round(loaded / 48 * 100)`. The outcome of
 each image load is a parameter.
 */
module Frames {
  import opened Js

  const TotalFrames: nat := 48
  const FrameStart: nat := 0
  /** Only every fourth source frame is used. */
  const FrameStep: nat := 4

  predicate IsDecimalDigit(c: char) { '0' <= c <= '9' }

  predicate AllDigits(s: string) {
    forall k :: 0 <= k < |s| ==> IsDecimalDigit(s[k])
  }

  /** The value of a string of decimal digits, most significant first. */
  function DecimalValue(s: string): nat
    requires AllDigits(s)
  {
    if s == [] then 0 else 10 * DecimalValue(s[..|s| - 1]) + (s[|s| - 1] as int - '0' as int)
  }

  /** `String(n)` for a natural number: its decimal digits without leading
      zeros. */
  function ToDecimal(n: nat): (s: string)
    ensures s != [] && AllDigits(s)
    ensures |s| > 1 ==> s[0] != '0'
    ensures n < 10 ==> |s| == 1
    ensures 10 <= n < 100 ==> |s| == 2
    ensures 100 <= n < 1000 ==> |s| == 3
  {
    var last := ['0' + (n % 10) as char];
    if n < 10 then last else ToDecimal(n / 10) + last
  }

  lemma {:induction false} ToDecimalValue(n: nat)
    ensures DecimalValue(ToDecimal(n)) == n
  {
    if n >= 10 {
      var s := ToDecimal(n);
      assert s[..|s| - 1] == ToDecimal(n / 10);
      ToDecimalValue(n / 10);
    }
  }

  /** Leading zeros do not change the value. */
  lemma {:induction false} LeadingZerosValue(z: nat, s: string)
    requires AllDigits(s)
    ensures AllDigits(Zeros(z) + s) && DecimalValue(Zeros(z) + s) == DecimalValue(s)
    decreases |s|
  {
    var t := Zeros(z) + s;
    assert forall k :: 0 <= k < |t| ==> IsDecimalDigit(t[k]) by {
      forall k | 0 <= k < |t|
        ensures IsDecimalDigit(t[k])
      {
        if k >= z {
          assert t[k] == s[k - z];
        }
      }
    }
    if s == [] {
      assert t == Zeros(z);
      ZerosValue(z);
    } else {
      var s' := s[..|s| - 1];
      assert t[..|t| - 1] == Zeros(z) + s';
      LeadingZerosValue(z, s');
    }
  }

  function Zeros(z: nat): (s: string)
    ensures |s| == z && forall k :: 0 <= k < z ==> s[k] == '0'
  {
    if z == 0 then [] else Zeros(z - 1) + ['0']
  }

  lemma {:induction false} ZerosValue(z: nat)
    ensures AllDigits(Zeros(z)) && DecimalValue(Zeros(z)) == 0
  {
    if z > 0 {
      assert Zeros(z)[..z - 1] == Zeros(z - 1);
      ZerosValue(z - 1);
    }
  }

  /** `s.padStart(width, '0')`. */
  function PadStart(s: string, width: nat): (r: string)
    ensures |r| == if |s| >= width then |s| else width
    ensures r[|r| - |s|..] == s
    ensures forall k :: 0 <= k < |r| - |s| ==> r[k] == '0'
  {
    if |s| >= width then s else Zeros(width - |s|) + s
  }

  /** The source frame number requested for index `i`. */
  function FrameNumber(i: nat): (n: nat)
    ensures n % FrameStep == 0 && n / FrameStep == i
  {
    i * FrameStep
  }

  /** The zero-padded frame number in the file name. */
  function PaddedFrameNumber(i: nat): (p: string)
    ensures AllDigits(p) && DecimalValue(p) == FrameNumber(i)
    ensures |p| >= 3
    ensures i < TotalFrames ==> |p| == 3
  {
    PaddedValue(FrameNumber(i));
    PadStart(ToDecimal(FrameNumber(i)), 3)
  }

  lemma PaddedValue(n: nat)
    ensures AllDigits(PadStart(ToDecimal(n), 3)) && DecimalValue(PadStart(ToDecimal(n), 3)) == n
  {
    var dec := ToDecimal(n);
    ToDecimalValue(n);
    if |dec| < 3 {
      LeadingZerosValue(3 - |dec|, dec);
    }
  }

  /** `041` for the frames that are 1 modulo 3, `042` for all others. */
  function DelayTag(frame: nat): (tag: string)
    ensures |tag| == 3
    ensures tag == "041" || tag == "042"
    ensures tag == "041" <==> frame % 3 == 1
  {
    if frame % 3 == 1 then "041" else "042"
  }

  /** The `041` tag goes to exactly the indices that are 1 modulo 3. */
  lemma DelayTagByIndex(i: nat)
    ensures DelayTag(FrameNumber(i)) == "041" <==> i % 3 == 1
    ensures DelayTag(FrameNumber(i)) == "042" <==> i % 3 != 1
  {
    assert FrameNumber(i) == 3 * i + i;
  }

  const PathPrefix: string := "/frames/frame_"

  /** The file name for index `i`: the fixed prefix, the padded frame
      number, then the delay tag before the `s.jpg` ending. */
  function FramePath(i: nat): (path: string)
    ensures |path| == 31 + |PaddedFrameNumber(i)|
    ensures path[..14] == PathPrefix
    ensures path[14..14 + |PaddedFrameNumber(i)|] == PaddedFrameNumber(i)
    ensures path[14 + |PaddedFrameNumber(i)|..23 + |PaddedFrameNumber(i)|] == "_delay-0."
    ensures path[|path| - 8..] == DelayTag(FrameNumber(i)) + "s.jpg"
    ensures i < TotalFrames ==> |path| == 34
  {
    JoinPath(PaddedFrameNumber(i), DelayTag(FrameNumber(i)))
  }

  /** The template literal, for a given number text and delay tag. */
  function JoinPath(p: string, tag: string): (path: string)
    requires |tag| == 3
    ensures |path| == 31 + |p|
    ensures path[..14] == PathPrefix
    ensures path[14..14 + |p|] == p
    ensures path[14 + |p|..23 + |p|] == "_delay-0."
    ensures path[|path| - 8..] == tag + "s.jpg"
  {
    assert |PathPrefix| == 14;
    var path := PathPrefix + (p + ("_delay-0." + (tag + "s.jpg")));
    assert path[14..14 + |p|] == p;
    assert path[14 + |p|..23 + |p|] == "_delay-0.";
    path
  }

  /** The 48 file names are pairwise distinct. */
  lemma FramePathInjective(i: nat, j: nat)
    requires i < TotalFrames && j < TotalFrames && i != j
    ensures FramePath(i) != FramePath(j)
  {
    assert FrameNumber(i) != FrameNumber(j);
    assert PaddedFrameNumber(i) != PaddedFrameNumber(j);
    assert FramePath(i)[14..17] != FramePath(j)[14..17];
  }

  /** `Math.round(loaded / 48 * 100)`, in integers: the nearest whole
      percentage, halves rounded up. */
  function LoadProgress(loaded: nat): (p: int)
    ensures 48 * (2 * p - 1) <= 200 * loaded < 48 * (2 * p + 1)
  {
    (100 * loaded + 24) / 48
  }

  lemma LoadProgressMonotonic(a: nat, b: nat)
    requires a <= b
    ensures LoadProgress(a) <= LoadProgress(b)
  {
  }

  /** `loadImages`: requests each frame in order and waits for it; a frame
      that fails to load leaves its slot empty but still counts. */
  method LoadImages(outcomes: seq<bool>) returns (requested: seq<string>, images: seq<Option<string>>, loaded: nat, progress: seq<int>)
    requires |outcomes| == TotalFrames
    ensures |requested| == TotalFrames && forall i :: 0 <= i < TotalFrames ==> requested[i] == FramePath(i)
    ensures |images| == TotalFrames
    ensures forall i :: 0 <= i < TotalFrames ==> images[i] == if outcomes[i] then Some(FramePath(i)) else None
    ensures loaded == TotalFrames
    ensures |progress| == TotalFrames && forall k :: 0 <= k < TotalFrames ==> progress[k] == LoadProgress(k + 1)
    ensures progress[TotalFrames - 1] == 100
  {
    requested, images, loaded, progress := LoadEach(outcomes, FramePath);
    FullProgress();
  }

  /** The preload loop for any index-to-file-name mapping `src`: index `i`
      is requested `i`-th, its slot is filled only when `outcomes[i]` says
      the load succeeded, and the counter and progress advance either way. */
  method LoadEach(outcomes: seq<bool>, src: nat -> string) returns (requested: seq<string>, images: seq<Option<string>>, loaded: nat, progress: seq<int>)
    requires |outcomes| == TotalFrames
    ensures |requested| == TotalFrames && forall i :: 0 <= i < TotalFrames ==> requested[i] == src(i)
    ensures |images| == TotalFrames
    ensures forall i :: 0 <= i < TotalFrames ==> images[i] == if outcomes[i] then Some(src(i)) else None
    ensures loaded == TotalFrames
    ensures |progress| == TotalFrames && forall k :: 0 <= k < TotalFrames ==> progress[k] == LoadProgress(k + 1)
  {
    requested, loaded, progress := [], 0, [];
    images := seq(TotalFrames, _ => None);
    var i := FrameStart;
    while i < TotalFrames
      invariant i <= TotalFrames && loaded == i
      invariant |requested| == i && forall j :: 0 <= j < i ==> requested[j] == src(j)
      invariant |images| == TotalFrames
      invariant forall j :: 0 <= j < TotalFrames ==> images[j] == if j < i && outcomes[j] then Some(src(j)) else None
      invariant |progress| == i && forall k :: 0 <= k < i ==> progress[k] == LoadProgress(k + 1)
    {
      var path := src(i);
      requested := requested + [path];
      if outcomes[i] {
        images := images[i := Some(path)];
      }
      loaded := loaded + 1;
      progress := progress + [LoadProgress(loaded)];
      i := i + 1;
    }
  }

  lemma FullProgress()
    ensures LoadProgress(TotalFrames) == 100
  {
  }
}
