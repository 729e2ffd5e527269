/**
 * Avatar colour and size (src/components/avatar.tsx; the colour functions are
 * repeated verbatim in src/routes/checkbox-game.tsx and modelled once here).
 *
 * JavaScript numbers are modelled as exact integers. Every value the hash
 * fold produces is an integer whose magnitude is bounded by `HashBound`, so
 * for strings of up to 2^21 code units the double arithmetic is exact
 * (2^21 * (2^31 + 2^16) < 2^53).
 */
module Avatar {
  import opened Wrappers

  const TwoTo32: int := 0x1_0000_0000
  const TwoTo31: int := 0x8000_0000

  /** D3's Category10 palette. */
  const Palette: seq<string> := [
    "#1f77b4", "#ff7f0e", "#2ca02c", "#d62728", "#9467bd",
    "#8c564b", "#e377c2", "#7f7f7f", "#bcbd22", "#17becf"
  ]

  /** `s.split('')` followed by `charCodeAt(0)`: the string's UTF-16 code units. */
  function CodeUnits(s: string): (units: seq<int>)
    ensures |units| >= |s|
    ensures forall i :: 0 <= i < |units| ==> 0 <= units[i] < 0x1_0000
    ensures (forall i :: 0 <= i < |s| ==> s[i] as int < 0x1_0000) ==>
      units == seq(|s|, i requires 0 <= i < |s| => s[i] as int)
  {
    if s == [] then []
    else
      var n := s[0] as int;
      var head := if n < 0x1_0000 then [n]
        else [0xD800 + (n - 0x1_0000) / 0x400, 0xDC00 + (n - 0x1_0000) % 0x400];
      head + CodeUnits(s[1..])
  }

  /** ECMAScript ToInt32 on an integer: the representative of x mod 2^32 in [-2^31, 2^31). */
  function ToInt32(x: int): (r: int)
    ensures -TwoTo31 <= r < TwoTo31
    ensures (r - x) % TwoTo32 == 0
  {
    var m := x % TwoTo32;
    if m >= TwoTo31 then m - TwoTo32 else m
  }

  /** `acc << 5`: the operand is converted by ToInt32, and so is the shifted result. */
  function ShiftLeft5(acc: int): (r: int)
    ensures -TwoTo31 <= r < TwoTo31
    ensures (r - 32 * acc) % TwoTo32 == 0
  {
    var a := ToInt32(acc);
    assert (32 * a - 32 * acc) % TwoTo32 == 0;
    ToInt32(a * 32)
  }

  /** One step of the `reduce`: `code + ((acc << 5) - acc)`, with no wrap-around outside the shift. */
  function Step(acc: int, code: int): int
  {
    code + (ShiftLeft5(acc) - acc)
  }

  /** `hashUUID` over the code units: a left fold of Step from 0. */
  function HashUnits(units: seq<int>): int
  {
    if units == [] then 0 else Step(HashUnits(units[..|units| - 1]), units[|units| - 1])
  }

  function HashUuid(uuid: string): int
  {
    HashUnits(CodeUnits(uuid))
  }

  /** The classic polynomial string hash `h * 31 + c`, without any wrap-around. */
  function Poly31(units: seq<int>): int
  {
    if units == [] then 0 else Poly31(units[..|units| - 1]) * 31 + units[|units| - 1]
  }

  /** The fold agrees with the polynomial hash modulo 2^32. */
  lemma {:induction false} HashIsPoly31Mod32(units: seq<int>)
    ensures (HashUnits(units) - Poly31(units)) % TwoTo32 == 0
  {
    if units != [] {
      var t := units[..|units| - 1];
      var h, p := HashUnits(t), Poly31(t);
      HashIsPoly31Mod32(t);
      var q := (h - p) / TwoTo32;
      assert h - p == TwoTo32 * q;
      var s := ShiftLeft5(h);
      var q2 := (s - 32 * h) / TwoTo32;
      assert s - 32 * h == TwoTo32 * q2;
      assert HashUnits(units) - Poly31(units) == (s - 32 * h) + 31 * (h - p);
      assert HashUnits(units) - Poly31(units) == TwoTo32 * (q2 + 31 * q);
      MultipleOfTwoTo32(HashUnits(units) - Poly31(units), q2 + 31 * q);
    }
  }

  lemma MultipleOfTwoTo32(n: int, q: int)
    requires n == TwoTo32 * q
    ensures n % TwoTo32 == 0
  {
  }

  /** Each step adds at most 2^31 + 2^16 to the magnitude, so the fold stays small. */
  lemma {:induction false} HashBounded(units: seq<int>)
    requires forall i :: 0 <= i < |units| ==> 0 <= units[i] < 0x1_0000
    ensures -|units| * 0x8001_0000 <= HashUnits(units) <= |units| * 0x8001_0000
  {
    if units != [] {
      var t := units[..|units| - 1];
      HashBounded(t);
      assert |units| * 0x8001_0000 == |t| * 0x8001_0000 + 0x8001_0000;
    }
  }

  /** `getColorForUUID`: the palette entry at |hash| mod 10. */
  function ColorForUuid(uuid: string): (color: string)
    ensures color in Palette
    ensures var h := HashUuid(uuid);
      color == Palette[(if h < 0 then -h else h) % |Palette|]
  {
    var h := HashUuid(uuid);
    Palette[(if h < 0 then -h else h) % |Palette|]
  }

  /** The empty id hashes to 0 and gets the first palette colour. */
  lemma EmptyUuidColor()
    ensures HashUuid("") == 0
    ensures ColorForUuid("") == "#1f77b4"
  {
  }

  lemma {:induction false} SingleCharHash(c: char)
    requires c as int < 0x1_0000
    ensures HashUuid([c]) == c as int
  {
    assert [c][1..] == [];
    assert CodeUnits([c]) == [c as int];
    assert CodeUnits([c])[..0] == [];
    assert ShiftLeft5(0) == 0;
    assert HashUnits([c as int]) == Step(HashUnits([]), c as int);
  }

  /** The `size` prop: one of four named sizes or a pixel count. */
  datatype Size = Xs | Sm | Md | Lg | Pixels(px: int)

  /** `sizeInPx`, with the prop defaulting to 'md'. */
  function SizeInPx(size: Option<Size>): (px: int)
    ensures size == None ==> px == 32
    ensures size == Some(Xs) ==> px == 20
    ensures size == Some(Sm) ==> px == 24
    ensures size == Some(Md) ==> px == 32
    ensures size == Some(Lg) ==> px == 40
    ensures forall n :: size == Some(Pixels(n)) ==> px == n
  {
    var s := if size.Some? then size.value else Md;
    match s
    case Xs => 20
    case Sm => 24
    case Md => 32
    case Lg => 40
    case Pixels(n) => n
  }

  /** `Math.max(Math.floor(sizeInPx / 2), 8)`. */
  function FontSize(px: int): (f: int)
    ensures f >= 8
    ensures px >= 16 ==> f == px / 2 && 2 * f <= px < 2 * f + 2
    ensures px < 16 <==> f == 8 && px / 2 < 8
  {
    var half := px / 2;
    if half > 8 then half else 8
  }

  lemma FontSizeOfEven(px: int)
    requires px >= 16 && px % 2 == 0
    ensures 2 * FontSize(px) == px
  {
  }
}
