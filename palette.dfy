/**
 * Palette handling: `Utilities.hex_to_tuple` (voronoi.py:120-122) and the
 * loop of `generate` that replaces every string colour of the palette by
 * its channel triple in place (voronoi.py:244-249).
 *
 * Python's `int(field, 16)` is modelled for the fields it is given here,
 * which are at most two characters long: optional surrounding whitespace,
 * an optional sign, then hexadecimal digits. A field it rejects makes the
 * conversion fail, as the `ValueError` does in the source.
 */
module Palette {
  import opened Wrappers

  datatype Rgb = Rgb(r: int, g: int, b: int)

  /** A palette entry: a channel triple, or a string such as "#ff8000". */
  datatype ColorEntry = Tuple(rgb: Rgb) | Text(text: string)

  /** `str.strip("#")`, leading half. */
  function DropLeadingHashes(s: string): (t: string)
    ensures |t| <= |s| && t == s[|s| - |t|..]
    ensures t == [] || t[0] != '#'
    ensures forall i :: 0 <= i < |s| - |t| ==> s[i] == '#'
  {
    if s != [] && s[0] == '#' then DropLeadingHashes(s[1..]) else s
  }

  /** `str.strip("#")`, trailing half. */
  function DropTrailingHashes(s: string): (t: string)
    ensures |t| <= |s| && t == s[..|t|]
    ensures t == [] || t[|t| - 1] != '#'
    ensures forall i :: |t| <= i < |s| ==> s[i] == '#'
  {
    if s != [] && s[|s| - 1] == '#' then DropTrailingHashes(s[..|s| - 1]) else s
  }

  function StripHashes(s: string): string
  {
    DropTrailingHashes(DropLeadingHashes(s))
  }

  /** Python's `s[lo:hi]` for 0 <= lo <= hi: indices past the end are clamped. */
  function Slice(s: string, lo: nat, hi: nat): (t: string)
    requires lo <= hi
    ensures |t| == if |s| <= lo then 0 else if |s| <= hi then |s| - lo else hi - lo
    ensures forall i :: 0 <= i < |t| ==> lo + i < |s| && t[i] == s[lo + i]
  {
    if |s| <= lo then [] else if |s| <= hi then s[lo..] else s[lo..hi]
  }

  function HexDigit(c: char): (v: Option<nat>)
    ensures v.Some? ==> v.value < 16
    ensures v.Some? <==> ('0' <= c <= '9' || 'a' <= c <= 'f' || 'A' <= c <= 'F')
  {
    if '0' <= c <= '9' then Some(c as nat - '0' as nat)
    else if 'a' <= c <= 'f' then Some(c as nat - 'a' as nat + 10)
    else if 'A' <= c <= 'F' then Some(c as nat - 'A' as nat + 10)
    else None
  }

  /** The ASCII characters Python's `int` skips around its digits. */
  predicate IsSpace(c: char)
  {
    c == ' ' || c == '\t' || c == '\n' || c == '\r' || c == '\U{B}' || c == '\U{C}'
  }

  function TrimSpace(s: string): (t: string)
    ensures |t| <= |s|
    decreases |s|
  {
    if s != [] && IsSpace(s[0]) then TrimSpace(s[1..])
    else if s != [] && IsSpace(s[|s| - 1]) then TrimSpace(s[..|s| - 1])
    else s
  }

  /** The value of a run of hexadecimal digits, most significant first. */
  function DigitsValue(ds: string): (v: Option<nat>)
    ensures v.Some? ==> v.value < Pow16(|ds|)
    ensures v.Some? <==> (forall i :: 0 <= i < |ds| ==> HexDigit(ds[i]).Some?)
  {
    if ds == [] then Some(0)
    else
      match (DigitsValue(ds[..|ds| - 1]), HexDigit(ds[|ds| - 1]))
      case (Some(high), Some(low)) => Some(16 * high + low)
      case _ => None
  }

  function Pow16(n: nat): (p: nat)
    ensures p >= 1
  {
    if n == 0 then 1 else 16 * Pow16(n - 1)
  }

  /** `int(field, 16)`; `None` stands for the `ValueError`. */
  function ParseInt16(field: string): (v: Option<int>)
    ensures v.Some? ==> -(Pow16(|field|) as int) < v.value < Pow16(|field|)
  {
    var core := TrimSpace(field);
    if core == [] then None
    else
      var negative := core[0] == '-';
      var digits := if core[0] == '-' || core[0] == '+' then core[1..] else core;
      if digits == [] then None
      else
        match DigitsValue(digits)
        case None => None
        case Some(n) =>
          PowMonotone(|digits|, |field|);
          var value: int := if negative then -(n as int) else n;
          Some(value)
  }

  lemma {:induction false} PowMonotone(a: nat, b: nat)
    requires a <= b
    ensures Pow16(a) <= Pow16(b)
    decreases b
  {
    if a < b {
      PowMonotone(a, b - 1);
    }
  }

  /** `hex_to_tuple`: strip the hashes and read characters 0-1, 2-3 and 4-5. */
  function HexToTuple(s: string): (c: Option<Rgb>)
    ensures c.Some? ==> -16 < c.value.r < 256 && -16 < c.value.g < 256 && -16 < c.value.b < 256
  {
    var t := StripHashes(s);
    match (ParseInt16(Slice(t, 0, 2)), ParseInt16(Slice(t, 2, 4)), ParseInt16(Slice(t, 4, 6)))
    case (Some(r), Some(g), Some(b)) => Some(Rgb(r, g, b))
    case _ => None
  }

  predicate IsChannel(v: int)
  {
    0 <= v < 256
  }

  function HexChar(d: nat): (c: char)
    requires d < 16
    ensures HexDigit(c) == Some(d)
  {
    if d < 10 then ('0' as nat + d) as char else ('a' as nat + d - 10) as char
  }

  /** Two lowercase digits for one channel. */
  function ChannelText(v: int): (s: string)
    requires IsChannel(v)
    ensures |s| == 2 && DigitsValue(s) == Some(v)
  {
    var s := [HexChar(v / 16), HexChar(v % 16)];
    assert s[..1] == [HexChar(v / 16)];
    assert s[..0] == [];
    s
  }

  /** "#rrggbb", the form the palettes of the source are written in. */
  function FormatHex(c: Rgb): (s: string)
    requires IsChannel(c.r) && IsChannel(c.g) && IsChannel(c.b)
    ensures |s| == 7 && s[0] == '#'
    ensures forall i :: 1 <= i < 7 ==> HexDigit(s[i]).Some?
  {
    var s := "#" + ChannelText(c.r) + ChannelText(c.g) + ChannelText(c.b);
    assert forall i :: 1 <= i < 7 ==> HexDigit(s[i]).Some? by {
      assert s[1..3] == ChannelText(c.r);
      assert s[3..5] == ChannelText(c.g);
      assert s[5..7] == ChannelText(c.b);
    }
    s
  }

  /** A field of two hexadecimal digits reads as its value. */
  lemma TwoDigitsParse(f: string)
    requires |f| == 2 && HexDigit(f[0]).Some? && HexDigit(f[1]).Some?
    ensures ParseInt16(f) == DigitsValue(f)
  {
    assert !IsSpace(f[0]) && !IsSpace(f[1]);
    assert TrimSpace(f) == f;
    assert f[0] != '-' && f[0] != '+';
  }

  /** Stripping the hashes of "#rrggbb" leaves the six digits. */
  lemma FormatHexStrips(c: Rgb)
    requires IsChannel(c.r) && IsChannel(c.g) && IsChannel(c.b)
    ensures StripHashes(FormatHex(c)) == ChannelText(c.r) + ChannelText(c.g) + ChannelText(c.b)
  {
    var s := FormatHex(c);
    var t := s[1..];
    assert t == ChannelText(c.r) + ChannelText(c.g) + ChannelText(c.b);
    assert DropLeadingHashes(s) == DropLeadingHashes(t);
    assert DropLeadingHashes(t) == t;
    assert DropTrailingHashes(t) == t;
  }

  /** The three fields of six digits are its three pairs. */
  lemma FieldsOfSix(a: string, b: string, c: string)
    requires |a| == 2 && |b| == 2 && |c| == 2
    ensures Slice(a + b + c, 0, 2) == a && Slice(a + b + c, 2, 4) == b && Slice(a + b + c, 4, 6) == c
  {
    var t := a + b + c;
    assert t[0..2] == a && t[2..4] == b && t[4..6] == c;
  }

  /** Reading back what `FormatHex` writes gives the colour again. */
  lemma HexRoundTrip(c: Rgb)
    requires IsChannel(c.r) && IsChannel(c.g) && IsChannel(c.b)
    ensures HexToTuple(FormatHex(c)) == Some(c)
  {
    FormatHexStrips(c);
    FieldsOfSix(ChannelText(c.r), ChannelText(c.g), ChannelText(c.b));
    TwoDigitsParse(ChannelText(c.r));
    TwoDigitsParse(ChannelText(c.g));
    TwoDigitsParse(ChannelText(c.b));
  }

  /**
   * Any text that strips to six hexadecimal digits, in either case, parses
   * to three channels in 0..255: the base-16 values of its three pairs.
   */
  lemma WellFormedHexParses(s: string)
    requires |StripHashes(s)| == 6
    requires forall i :: 0 <= i < 6 ==> HexDigit(StripHashes(s)[i]).Some?
    ensures var t := StripHashes(s);
      HexToTuple(s) == Some(Rgb(DigitsValue(t[0..2]).value, DigitsValue(t[2..4]).value, DigitsValue(t[4..6]).value))
    ensures IsChannel(HexToTuple(s).value.r) && IsChannel(HexToTuple(s).value.g) && IsChannel(HexToTuple(s).value.b)
  {
    var t := StripHashes(s);
    assert t == t[0..2] + t[2..4] + t[4..6];
    FieldsOfSix(t[0..2], t[2..4], t[4..6]);
    TwoDigitsParse(t[0..2]);
    TwoDigitsParse(t[2..4]);
    TwoDigitsParse(t[4..6]);
  }

  lemma StripLeadingHash(s: string)
    ensures StripHashes("#" + s) == StripHashes(s)
  {
    assert ("#" + s)[1..] == s;
  }

  /** Leading hashes are stripped whatever their number: "#" is optional. */
  lemma LeadingHashIgnored(s: string)
    ensures HexToTuple("#" + s) == HexToTuple(s)
  {
    StripLeadingHash(s);
  }

  lemma {:induction false} DropLeadingAppend(s: string)
    ensures DropLeadingHashes(s + "#") == if DropLeadingHashes(s) == [] then [] else DropLeadingHashes(s) + "#"
  {
    if s != [] && s[0] == '#' {
      assert (s + "#")[1..] == s[1..] + "#";
      DropLeadingAppend(s[1..]);
    } else if s == [] {
      assert s + "#" == "#";
      assert DropLeadingHashes("#") == DropLeadingHashes("");
    }
  }

  lemma DropTrailingAppend(l: string)
    ensures DropTrailingHashes(l + "#") == DropTrailingHashes(l)
  {
    assert (l + "#")[..|l + "#"| - 1] == l;
  }

  lemma StripTrailingHash(s: string)
    ensures StripHashes(s + "#") == StripHashes(s)
  {
    DropLeadingAppend(s);
    if DropLeadingHashes(s) != [] {
      DropTrailingAppend(DropLeadingHashes(s));
    }
  }

  /** Trailing hashes are stripped as well. */
  lemma TrailingHashIgnored(s: string)
    ensures HexToTuple(s + "#") == HexToTuple(s)
  {
    StripTrailingHash(s);
  }

  /**
   * A text of at most four characters after stripping is refused: its
   * third field is empty. (Five characters can still parse, the last
   * field being a single digit.)
   */
  lemma ShortTextRefused(s: string)
    requires |StripHashes(s)| <= 4
    ensures HexToTuple(s) == None
  {
    assert Slice(StripHashes(s), 4, 6) == [];
  }

  /** What one step of the conversion loop leaves in a slot, if it succeeds. */
  function Converted(e: ColorEntry): (r: Option<ColorEntry>)
    ensures r.Some? ==> r.value.Tuple?
    ensures e.Tuple? ==> r == Some(e)
    ensures e.Text? ==> (r.Some? <==> HexToTuple(e.text).Some?)
  {
    match e
    case Tuple(_) => Some(e)
    case Text(s) =>
      match HexToTuple(s)
      case None => None
      case Some(rgb) => Some(Tuple(rgb))
  }

  /** A converted entry is left alone by a second conversion. */
  lemma ConvertedIsStable(e: ColorEntry)
    requires Converted(e).Some?
    ensures Converted(Converted(e).value) == Converted(e)
  {
  }

  /** The first i entries of `cur` are the conversions of those of `orig`. */
  ghost predicate ConvertedUpTo(cur: seq<ColorEntry>, orig: seq<ColorEntry>, i: nat)
    requires i <= |cur| == |orig|
  {
    forall j :: 0 <= j < i ==> Some(cur[j]) == Converted(orig[j])
  }

  lemma ConvertOneMore(cur: seq<ColorEntry>, orig: seq<ColorEntry>, i: nat, v: ColorEntry)
    requires i < |cur| == |orig|
    requires ConvertedUpTo(cur, orig, i) && Some(v) == Converted(orig[i])
    ensures ConvertedUpTo(cur[i := v], orig, i + 1)
  {
  }

  /**
   * The loop of voronoi.py:244-249: every string entry is replaced by its
   * triple, in order. On the first entry that does not parse, the source
   * raises; `Some(k)` reports that index, with the entries before it
   * already replaced and the rest untouched.
   */
  method ConvertColors(colors: array<ColorEntry>) returns (failed: Option<nat>)
    modifies colors
    ensures failed.None? <==> forall i :: 0 <= i < colors.Length ==> Converted(old(colors[i])).Some?
    ensures failed.None? ==> forall i :: 0 <= i < colors.Length ==> Some(colors[i]) == Converted(old(colors[i]))
    ensures failed.Some? ==> failed.value < colors.Length && Converted(old(colors[failed.value])).None?
    ensures failed.Some? ==> forall i :: 0 <= i < failed.value ==> Some(colors[i]) == Converted(old(colors[i]))
    ensures failed.Some? ==> forall i :: failed.value <= i < colors.Length ==> colors[i] == old(colors[i])
  {
    ghost var orig := colors[..];
    var i := 0;
    while i < colors.Length
      invariant 0 <= i <= colors.Length
      invariant ConvertedUpTo(colors[..], orig, i)
      invariant forall j :: i <= j < colors.Length ==> colors[j] == orig[j]
    {
      var converted := Converted(colors[i]);
      if converted.None? {
        return Some(i);
      }
      ConvertOneMore(colors[..], orig, i, converted.value);
      colors[i] := converted.value;
      i := i + 1;
    }
    return None;
  }
}
