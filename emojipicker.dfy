/** The emoji picker: the displayed emoji, whether the picker is open, and the decoding
    of a selection's `unified` code (hexadecimal code points joined by '-') into the
    emoji handed to `onChange`. The emoji is given as its sequence of Unicode code
    points. */
module EmojiPicker {
  import opened Common
  import opened Lists

  // ------------------------------------------------------------------ split and join

  /** `s.split(sep)` for a one-character separator: the pieces between separators, an
      empty piece at each end that starts or ends with one. */
  function Split(s: string, sep: char): (parts: seq<string>)
    ensures |parts| >= 1
    ensures forall k, j :: 0 <= k < |parts| && 0 <= j < |parts[k]| ==> parts[k][j] != sep
  {
    if s == [] then [""]
    else
      var rest := Split(s[1..], sep);
      if s[0] == sep then [""] + rest
      else [[s[0]] + rest[0]] + rest[1..]
  }

  /** `parts.join(sep)`. */
  function Join(parts: seq<string>, sep: char): (s: string)
    requires |parts| >= 1
    ensures parts[0] <= s
    ensures |parts| > 1 ==> |s| > |parts[0]| && s[|parts[0]|] == sep
  {
    if |parts| == 1 then parts[0] else parts[0] + [sep] + Join(parts[1..], sep)
  }

  /** Splitting and joining again gives the string back. */
  lemma {:induction false} JoinSplit(s: string, sep: char)
    ensures Join(Split(s, sep), sep) == s
  {
    if s != [] {
      JoinSplit(s[1..], sep);
      var rest := Split(s[1..], sep);
      if s[0] != sep && |rest| > 1 {
        assert Join(rest, sep) == rest[0] + [sep] + Join(rest[1..], sep);
        assert ([[s[0]] + rest[0]] + rest[1..])[1..] == rest[1..];
      }
      if s[0] == sep {
        assert ([""] + rest)[1..] == rest;
      }
    }
  }

  lemma {:induction false} SplitAfterPlain(p: string, t: string, sep: char)
    requires forall j :: 0 <= j < |p| ==> p[j] != sep
    ensures Split(p + t, sep) == [p + Split(t, sep)[0]] + Split(t, sep)[1..]
  {
    if p == [] {
      assert p + t == t;
      var parts := Split(t, sep);
      assert p + parts[0] == parts[0];
      assert parts == [parts[0]] + parts[1..];
    } else {
      SplitAfterPlain(p[1..], t, sep);
      var r := Split(t, sep);
      var q := p[1..] + r[0];
      assert (p + t)[1..] == p[1..] + t;
      assert Split(p[1..] + t, sep) == [q] + r[1..];
      assert (p + t)[0] == p[0] != sep;
      ConsAppend(p[0], p[1..], r[0]);
      assert [p[0]] + p[1..] == p;
    }
  }

  /** Joining pieces free of the separator and splitting again gives the pieces back. */
  lemma {:induction false} SplitJoin(parts: seq<string>, sep: char)
    requires |parts| >= 1
    requires forall k, j :: 0 <= k < |parts| && 0 <= j < |parts[k]| ==> parts[k][j] != sep
    ensures Split(Join(parts, sep), sep) == parts
  {
    if |parts| == 1 {
      SplitAfterPlain(parts[0], "", sep);
      assert parts[0] + "" == parts[0];
    } else {
      SplitJoin(parts[1..], sep);
      var j := Join(parts[1..], sep);
      assert Join(parts, sep) == parts[0] + ([sep] + j);
      assert ([sep] + j)[1..] == j;
      SplitAfterPlain(parts[0], [sep] + j, sep);
      assert parts[0] + "" == parts[0];
    }
  }

  // ------------------------------------------------------------------ hexadecimal

  function HexDigit(c: char): (d: Option<nat>)
    ensures d.Some? ==> d.value < 16
  {
    if '0' <= c <= '9' then Some(c as int - '0' as int)
    else if 'a' <= c <= 'f' then Some(c as int - 'a' as int + 10)
    else if 'A' <= c <= 'F' then Some(c as int - 'A' as int + 10)
    else None
  }

  /** The value of a non-empty string of hexadecimal digits; anything else is NaN. */
  function HexValue(s: string): (v: Option<nat>)
    ensures v.Some? <==> s != [] && forall k :: 0 <= k < |s| ==> HexDigit(s[k]).Some?
  {
    if s == [] then None
    else if |s| == 1 then HexDigit(s[0])
    else
      match (HexValue(s[..|s| - 1]), HexDigit(s[|s| - 1]))
      case (Some(v), Some(d)) => Some(v * 16 + d)
      case _ => None
  }

  /** `Number(code)` for the strings the picker builds: the value of a '0x' literal, or
      NaN (None). */
  function HexLiteral(code: string): Option<nat>
  {
    if |code| >= 2 && code[..2] == "0x" then HexValue(code[2..]) else None
  }

  /** The lower-case hexadecimal digit of d, which reads back as d. */
  function HexChar(d: nat): (c: char)
    requires d < 16
    ensures c != '-'
    ensures HexDigit(c) == Some(d)
  {
    if d < 10 then ('0' as int + d) as char else ('a' as int + d - 10) as char
  }

  /** A code point written in lower-case hexadecimal without leading zeros. */
  function Hex(n: nat): (s: string)
    ensures |s| >= 1
    ensures forall j :: 0 <= j < |s| ==> s[j] != '-'
  {
    if n < 16 then [HexChar(n)] else Hex(n / 16) + [HexChar(n % 16)]
  }

  lemma {:induction false} HexRoundTrip(n: nat)
    ensures HexValue(Hex(n)) == Some(n)
  {
    if n >= 16 {
      HexRoundTrip(n / 16);
      var s := Hex(n);
      assert s[..|s| - 1] == Hex(n / 16);
    }
  }

  // ------------------------------------------------------------------ decoding

  /** The largest Unicode code point; `String.fromCodePoint` throws a RangeError above it. */
  const MaxCodePoint: nat := 0x10FFFF

  predicate ValidSegment(seg: string)
  {
    HexValue(seg).Some? && HexValue(seg).value <= MaxCodePoint
  }

  predicate AllValid(segs: seq<string>)
  {
    forall k :: 0 <= k < |segs| ==> ValidSegment(segs[k])
  }

  /** What the picker makes of a `unified` code: one code point per '-'-separated
      segment, in order, each segment read as hexadecimal; a segment that is not a
      hexadecimal number, or names no code point, makes `fromCodePoint` throw (None). */
  function Decode(unified: string): (r: Option<seq<nat>>)
    ensures var segs := Split(unified, '-');
      && (r.Some? <==> AllValid(segs))
      && (r.Some? ==> |r.value| == |segs|
                      && forall k :: 0 <= k < |segs| ==> Some(r.value[k]) == HexValue(segs[k]) && r.value[k] <= MaxCodePoint)
  {
    var segs := Split(unified, '-');
    if AllValid(segs)
    then Some(seq(|segs|, k requires 0 <= k < |segs| => HexValue(segs[k]).value))
    else None
  }

  /** The `unified` code of a sequence of code points. */
  function Encode(cps: seq<nat>): string
    requires |cps| >= 1
  {
    Join(seq(|cps|, k requires 0 <= k < |cps| => Hex(cps[k])), '-')
  }

  /** Decoding the code of any non-empty sequence of code points gives it back. */
  lemma DecodeEncode(cps: seq<nat>)
    requires |cps| >= 1
    requires forall k :: 0 <= k < |cps| ==> cps[k] <= MaxCodePoint
    ensures Decode(Encode(cps)) == Some(cps)
  {
    var parts := seq(|cps|, k requires 0 <= k < |cps| => Hex(cps[k]));
    SplitJoin(parts, '-');
    forall k | 0 <= k < |cps| ensures HexValue(parts[k]) == Some(cps[k]) {
      HexRoundTrip(cps[k]);
    }
    assert Split(Encode(cps), '-') == parts;
    assert forall k :: 0 <= k < |parts| ==> ValidSegment(parts[k]);
    var r := Decode(Encode(cps));
    assert r.Some? && |r.value| == |cps|;
    forall k | 0 <= k < |cps| ensures r.value[k] == cps[k] {
    }
    assert r.value == cps;
  }

  /** `String.fromCodePoint(...codes)` on the '0x' strings: the code points, or a
      RangeError (None) as soon as one is NaN or too large. */
  function FromCodePoint(codes: seq<string>): (r: Option<seq<nat>>)
    ensures r.Some? ==> |r.value| == |codes|
  {
    if codes == [] then Some([])
    else
      var v := HexLiteral(codes[0]);
      if v.None? || v.value > MaxCodePoint then None
      else
        match FromCodePoint(codes[1..])
        case None => None
        case Some(rest) => Some([v.value] + rest)
  }

  /** The `forEach` that prefixes each segment with '0x'. */
  method PrefixSegments(sym: seq<string>) returns (codes: seq<string>)
    ensures |codes| == |sym|
    ensures forall k :: 0 <= k < |sym| ==> codes[k] == "0x" + sym[k]
  {
    codes := [];
    var i := 0;
    while i < |sym|
      invariant 0 <= i <= |sym|
      invariant |codes| == i
      invariant forall k :: 0 <= k < i ==> codes[k] == "0x" + sym[k]
    {
      codes := codes + ["0x" + sym[i]];
      i := i + 1;
    }
  }

  lemma {:induction false} FromPrefixed(segs: seq<string>, codes: seq<string>)
    requires |codes| == |segs|
    requires forall k :: 0 <= k < |segs| ==> codes[k] == "0x" + segs[k]
    ensures FromCodePoint(codes).Some? <==> forall k :: 0 <= k < |segs| ==> ValidSegment(segs[k])
    ensures FromCodePoint(codes).Some? ==> forall k :: 0 <= k < |segs| ==> Some(FromCodePoint(codes).value[k]) == HexValue(segs[k])
  {
    if segs != [] {
      FromPrefixed(segs[1..], codes[1..]);
      assert codes[0][2..] == segs[0];
      assert codes[0][..2] == "0x";
      if FromCodePoint(codes).Some? {
        forall k | 0 <= k < |segs| ensures Some(FromCodePoint(codes).value[k]) == HexValue(segs[k]) {
          if k > 0 {
            assert FromCodePoint(codes).value[k] == FromCodePoint(codes[1..]).value[k - 1];
          }
        }
      }
      if forall k :: 0 <= k < |segs| ==> ValidSegment(segs[k]) {
        assert ValidSegment(segs[0]);
        assert forall k :: 0 <= k < |segs[1..]| ==> ValidSegment(segs[1..][k]) by {
          forall k | 0 <= k < |segs[1..]| ensures ValidSegment(segs[1..][k]) {
            assert segs[1..][k] == segs[k + 1];
          }
        }
      } else {
        var k :| 0 <= k < |segs| && !ValidSegment(segs[k]);
        if k > 0 {
          assert segs[1..][k - 1] == segs[k];
        }
      }
    }
  }

  // ------------------------------------------------------------------ the component

  /** The picker's state: the emoji it displays and whether the picker is open. */
  datatype Picker = Picker(selected: string, showPicker: bool)

  /** The effect on `props.icon`: the displayed emoji follows the prop. */
  function IconChanged(p: Picker, icon: string): (r: Picker)
    ensures r.selected == icon && r.showPicker == p.showPicker
  {
    p.(selected := icon)
  }

  /** selectEmoji. A selection without a `unified` field does nothing. Otherwise the
      code is split and decoded; when `fromCodePoint` throws nothing else happens, and
      when it does not the picker closes and `onChange` is called once with the emoji.
      The displayed emoji is left to the prop effect. */
  method SelectEmoji(p: Picker, unified: Option<string>) returns (r: Picker, onChange: Option<seq<nat>>)
    ensures unified.None? ==> r == p && onChange == None
    ensures unified.Some? ==> onChange == Decode(unified.value)
    ensures r == if onChange.Some? then p.(showPicker := false) else p
  {
    if unified.None? {
      return p, None;
    }
    var sym := Split(unified.value, '-');
    var codes := PrefixSegments(sym);
    FromPrefixed(sym, codes);
    onChange := FromCodePoint(codes);
    if onChange.Some? {
      var d := Decode(unified.value);
      assert d.Some? && |d.value| == |onChange.value|;
      forall k | 0 <= k < |sym| ensures d.value[k] == onChange.value[k] {
      }
      assert d.value == onChange.value;
      r := p.(showPicker := false);
    } else {
      r := p;
    }
  }
}
