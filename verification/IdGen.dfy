/** internal/idgen/idgen.go: from the counter to a word or to a hex id. */
module IdGen {
  import opened Prelude
  import opened WordList

  function HexDigit(d: nat): char
    requires d < 16
  {
    "0123456789abcdef"[d]
  }

  /** The digits of %x. */
  function Hex(n: nat): string {
    if n < 16 then [HexDigit(n)] else Hex(n / 16) + [HexDigit(n % 16)]
  }

  /** Zero padding to a minimum width of four, as %04x does: never a truncation. */
  function Pad4(s: string): string
    decreases 4 - |s|
  {
    if |s| < 4 then Pad4("0" + s) else s
  }

  /** fmt.Sprintf("%04x", n) */
  function Format04x(n: nat): string {
    Pad4(Hex(n))
  }

  function Allocate(words: seq<string>, counter: Word64): string
    requires |words| > 0
  {
    if counter < |words| then words[counter]
    else "hex-" + Format04x(counter - (|words| - 1))
  }

  // ----- reading an id back

  predicate IsHexDigit(c: char) {
    '0' <= c <= '9' || 'a' <= c <= 'f'
  }

  function DigitValue(c: char): (d: nat)
    requires IsHexDigit(c)
    ensures d < 16 && HexDigit(d) == c
  {
    if c <= '9' then (c - '0') as nat else (c - 'a') as nat + 10
  }

  predicate IsHexNumeral(s: string) {
    forall i | 0 <= i < |s| :: IsHexDigit(s[i])
  }

  function HexValue(s: string): nat
    requires IsHexNumeral(s)
  {
    if s == "" then 0 else 16 * HexValue(s[..|s| - 1]) + DigitValue(s[|s| - 1])
  }

  function IndexOf(words: seq<string>, w: string): (r: Option<nat>)
    ensures match r case Some(i) => i < |words| && words[i] == w case None => w !in words
  {
    if words == [] then None
    else if words[|words| - 1] == w then Some(|words| - 1)
    else IndexOf(words[..|words| - 1], w)
  }

  /** The counter an id was allocated for. */
  function CounterOf(words: seq<string>, id: string): Option<nat>
    requires |words| > 0
  {
    if HasHexPrefix(id) && IsHexNumeral(id[4..]) then Some(HexValue(id[4..]) + |words| - 1)
    else IndexOf(words, id)
  }

  lemma HexDigitReadsBack(d: nat)
    requires d < 16
    ensures IsHexDigit(HexDigit(d)) && DigitValue(HexDigit(d)) == d
  {
  }

  lemma {:induction false} HexReadsBack(n: nat)
    ensures Hex(n) != "" && IsHexNumeral(Hex(n)) && HexValue(Hex(n)) == n
  {
    if n < 16 {
      HexDigitReadsBack(n);
      assert Hex(n)[..0] == "";
    } else {
      HexReadsBack(n / 16);
      HexDigitReadsBack(n % 16);
      var s := Hex(n);
      assert s[..|s| - 1] == Hex(n / 16) && s[|s| - 1] == HexDigit(n % 16);
    }
  }

  lemma {:induction false} LeadingZero(s: string)
    requires IsHexNumeral(s)
    ensures IsHexNumeral("0" + s) && HexValue("0" + s) == HexValue(s)
  {
    var z := "0" + s;
    if s == "" {
      assert z[..0] == "" && HexValue(z[..0]) == 0;
    } else {
      assert z[..|z| - 1] == "0" + s[..|s| - 1];
      LeadingZero(s[..|s| - 1]);
    }
  }

  lemma {:induction false} PadReadsBack(s: string)
    requires IsHexNumeral(s)
    ensures IsHexNumeral(Pad4(s)) && HexValue(Pad4(s)) == HexValue(s)
    decreases 4 - |s|
  {
    if |s| < 4 {
      LeadingZero(s);
      PadReadsBack("0" + s);
    }
  }

  /** Every width of %04x can be parsed back. */
  lemma Format04xReadsBack(n: nat)
    ensures IsHexNumeral(Format04x(n)) && HexValue(Format04x(n)) == n
  {
    HexReadsBack(n);
    PadReadsBack(Hex(n));
  }

  /** The numerals %04x can produce: four digits, or more with no leading zero. */
  predicate IsCanonical(s: string) {
    IsHexNumeral(s) && |s| >= 4 && (|s| > 4 ==> s[0] != '0')
  }

  /** One more digit multiplies by sixteen, and the width follows the value. */
  lemma {:induction false} HexWidth(n: nat)
    ensures n > 0 ==> Hex(n)[0] != '0'
    ensures |Hex(n)| <= 4 <==> n < 0x1_0000
    decreases n
  {
    if n >= 16 {
      HexWidth(n / 16);
      HexWidthBelow(n / 16);
    }
  }

  lemma {:induction false} HexWidthBelow(n: nat)
    ensures |Hex(n)| <= 1 <==> n < 16
    ensures |Hex(n)| <= 2 <==> n < 256
    ensures |Hex(n)| <= 3 <==> n < 0x1000
  {
    assert |Hex(n)| >= 1;
    if n >= 16 {
      assert |Hex(n / 16)| >= 1;
      if n / 16 >= 16 {
        assert |Hex(n / 16 / 16)| >= 1;
        if n / 16 / 16 >= 16 {
          assert |Hex(n / 16 / 16 / 16)| >= 1;
        }
      }
    }
  }

  lemma {:induction false} PadShape(s: string)
    requires 1 <= |s|
    ensures |s| <= 4 ==> |Pad4(s)| == 4
    ensures |s| > 4 ==> Pad4(s) == s
    decreases 4 - |s|
  {
    if |s| < 4 {
      PadShape("0" + s);
    }
  }

  lemma {:induction false} SameValueSameNumeral(s: string, t: string)
    requires IsHexNumeral(s) && IsHexNumeral(t) && |s| == |t| && HexValue(s) == HexValue(t)
    ensures s == t
  {
    if s != "" {
      var n := |s| - 1;
      var a, b := HexValue(s[..n]), HexValue(t[..n]);
      var x, y := DigitValue(s[n]), DigitValue(t[n]);
      assert 16 * a + x == 16 * b + y;
      assert a == b && x == y;
      SameValueSameNumeral(s[..n], t[..n]);
      assert s[n] == HexDigit(x) == t[n];
      assert s == s[..n] + [s[n]] && t == t[..n] + [t[n]];
    }
  }

  lemma {:induction false} ValueBounds(s: string)
    requires IsHexNumeral(s)
    ensures HexValue(s) < Pow16(|s|)
    ensures s != "" && s[0] != '0' ==> HexValue(s) >= Pow16(|s| - 1)
  {
    if s != "" {
      ValueBounds(s[..|s| - 1]);
    }
  }

  function Pow16(k: nat): nat {
    if k == 0 then 1 else 16 * Pow16(k - 1)
  }

  lemma {:induction false} Pow16Grows(j: nat, k: nat)
    requires j <= k
    ensures Pow16(j) <= Pow16(k)
  {
    if j < k {
      Pow16Grows(j, k - 1);
    }
  }

  /** The reading is positional in base sixteen, with these digits and no others. */
  lemma PositionalValue(s: string, d: nat)
    requires IsHexNumeral(s) && d < 16
    ensures HexValue("") == 0
    ensures
      var t := s + ["0123456789abcdef"[d]];
      IsHexNumeral(t) && HexValue(t) == 16 * HexValue(s) + d
    ensures forall c: char :: IsHexNumeral([c]) ==> c in "0123456789abcdef"
  {
    HexDigitReadsBack(d);
    var t := s + [HexDigit(d)];
    assert t[..|t| - 1] == s && t[|t| - 1] == HexDigit(d);
    forall c: char | IsHexNumeral([c]) ensures c in "0123456789abcdef" {
      assert IsHexDigit([c][0]) && HexDigit(DigitValue(c)) == c;
    }
  }

  /** The other direction: formatting inverts parsing on every canonical numeral, so %04x is onto them. */
  lemma CanonicalFormats(s: string)
    requires IsCanonical(s)
    ensures Format04x(HexValue(s)) == s
    ensures |s| == 4 <==> HexValue(s) < 0x1_0000
  {
    var n := HexValue(s);
    Format04xReadsBack(n);
    FormatIsCanonical(n);
    var t := Format04x(n);
    if |s| < |t| {
      WiderIsLarger(s, t);
    } else if |t| < |s| {
      WiderIsLarger(t, s);
    }
    SameValueSameNumeral(s, t);
  }

  lemma WiderIsLarger(s: string, t: string)
    requires IsHexNumeral(s) && IsCanonical(t) && |s| < |t| && |t| > 4
    ensures HexValue(s) < HexValue(t)
  {
    ValueBounds(s);
    ValueBounds(t);
    Pow16Grows(|s|, |t| - 1);
  }

  lemma FormatIsCanonical(n: nat)
    ensures IsCanonical(Format04x(n))
    ensures |Format04x(n)| == 4 <==> n < 0x1_0000
  {
    Format04xReadsBack(n);
    HexReadsBack(n);
    HexWidth(n);
    PadShape(Hex(n));
  }

  // ----- the allocator's promises

  /** Every id tells which counter value it was allocated for. */
  lemma AllocateReadsBack(words: seq<string>, counter: Word64)
    requires ValidWords(words)
    ensures CounterOf(words, Allocate(words, counter)) == Some(counter)
  {
    var id := Allocate(words, counter);
    if counter < |words| {
      assert IsEntry(words[counter]);
      var i := IndexOf(words, id).value;
      assert i == counter;
    } else {
      var n := counter - (|words| - 1);
      Format04xReadsBack(n);
      assert id[..4] == "hex-" && id[4..] == Format04x(n);
    }
  }

  /** No two counter values of the whole uint64 range share an id. */
  lemma AllocateInjective(words: seq<string>, a: Word64, b: Word64)
    requires ValidWords(words)
    requires Allocate(words, a) == Allocate(words, b)
    ensures a == b
  {
    AllocateReadsBack(words, a);
    AllocateReadsBack(words, b);
  }

  /**
   * The ids Allocate can produce are exactly the words and `hex-` followed by a canonical numeral of value at least 1,
   * up to the end of the counter's range.
   */
  lemma AllocateRange(words: seq<string>, id: string)
    requires ValidWords(words)
    ensures (exists c: Word64 :: Allocate(words, c) == id) <==>
            || id in words
            || (HasHexPrefix(id) && IsCanonical(id[4..]) && 1 <= HexValue(id[4..]) <= TWO_64 - |words|)
  {
    if c: Word64 :| Allocate(words, c) == id {
      if c >= |words| {
        FormatIsCanonical(c - (|words| - 1));
        Format04xReadsBack(c - (|words| - 1));
        assert id[..4] == "hex-" && id[4..] == Format04x(c - (|words| - 1));
      }
    }
    if id in words {
      var c: nat :| c < |words| && words[c] == id;
      assert Allocate(words, c) == id;
    } else if HasHexPrefix(id) && IsCanonical(id[4..]) && 1 <= HexValue(id[4..]) <= TWO_64 - |words| {
      CanonicalIsAllocated(words, id);
    }
  }

  lemma CanonicalIsAllocated(words: seq<string>, id: string)
    requires ValidWords(words) && HasHexPrefix(id) && IsCanonical(id[4..])
    requires 1 <= HexValue(id[4..]) <= TWO_64 - |words|
    ensures Allocate(words, HexValue(id[4..]) + |words| - 1) == id
  {
    CanonicalFormats(id[4..]);
    assert "hex-" + id[4..] == id;
  }

  /**
   * The three ranges the documentation of Allocate names, on the counter: words, then numerals that count from 1 and
   * are four digits wide exactly up to counter 1296 + 65534.
   */
  lemma AllocateRanges(words: seq<string>, counter: Word64)
    requires ValidWords(words)
    ensures
      var id := Allocate(words, counter);
      if counter <= 1295 then id == words[counter] && !HasHexPrefix(id)
      else
        && HasHexPrefix(id) && id[..4] == "hex-"
        && IsCanonical(id[4..]) && HexValue(id[4..]) == counter - 1295
        && (|id[4..]| == 4 <==> counter <= 1296 + 65534)
  {
    if counter <= 1295 {
      assert IsEntry(words[counter]);
    } else {
      Format04xReadsBack(counter - 1295);
      FormatIsCanonical(counter - 1295);
      assert Allocate(words, counter)[4..] == Format04x(counter - 1295);
    }
  }

  /** Whether Register has yet to hand out this id; something a caller can compute from the id and the counter. */
  predicate YetToBeAllocated(words: seq<string>, counter: Word64, id: string)
    requires |words| > 0
  {
    var c := CounterOf(words, id);
    c.Some? && counter <= c.value < TWO_64 && Allocate(words, c.value) == id
  }

  lemma YetToBeAllocatedIff(words: seq<string>, counter: Word64, id: string)
    requires ValidWords(words)
    ensures YetToBeAllocated(words, counter, id) <==> exists i: Word64 :: counter <= i && Allocate(words, i) == id
  {
    if i: Word64 :| counter <= i && Allocate(words, i) == id {
      AllocateReadsBack(words, i);
    }
  }
}
