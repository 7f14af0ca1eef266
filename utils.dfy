/** hdlg/utils.py: the NEIGHBORING_WHITESPACE collapse that the hdl_toc
    parser runs on every line, and `size_unit` with its unit table. */
module Utils {
  import opened Strings
  import opened Seqs

  const SIZE_UNITS: seq<string> := ["B", "KB", "MB", "GB", "TB", "PB"]

  /** `size_unit`'s default base; no caller passes another. */
  const BASE: nat := 1000

  // ---------------------------------------------------------------------
  // NEIGHBORING_WHITESPACE.sub(" ", s), with NEIGHBORING_WHITESPACE = [\s]{2,}

  predicate NoDoubleSpace(s: string) {
    forall i :: 0 <= i < |s| - 1 ==> !(IsSpace(s[i]) && IsSpace(s[i + 1]))
  }

  /** The characters of `s` that are not whitespace, in order. */
  function NonSpace(s: string): string {
    if |s| == 0 then "" else (if IsSpace(s[0]) then "" else [s[0]]) + NonSpace(s[1..])
  }

  lemma {:induction false} NonSpaceOfLStrip(s: string)
    ensures NonSpace(LStripSpace(s)) == NonSpace(s)
  {
    if |s| > 0 && IsSpace(s[0]) {
      NonSpaceOfLStrip(s[1..]);
    }
  }

  /** The regex substitution: scanning from the left, a run of two or more
      whitespace characters is matched greedily (so the whole run) and
      replaced by one space; any other character is kept. */
  function Collapse(s: string): (r: string)
    ensures NoDoubleSpace(r)
    ensures NonSpace(r) == NonSpace(s)
    ensures |r| > 0 <==> |s| > 0
    ensures |s| > 0 ==> (IsSpace(r[0]) <==> IsSpace(s[0]))
    decreases |s|
  {
    if |s| == 0 then ""
    else if |s| >= 2 && IsSpace(s[0]) && IsSpace(s[1]) then
      var t := LStripSpace(s);
      NonSpaceOfLStrip(s);
      var r := " " + Collapse(t);
      assert r[1..] == Collapse(t);
      r
    else
      var r := [s[0]] + Collapse(s[1..]);
      assert r[1..] == Collapse(s[1..]);
      r
  }

  /** Text with no two neighbouring whitespace characters is left alone: a
      single whitespace character, of whatever kind, is kept. */
  lemma {:induction false} CollapseKeeps(s: string)
    requires NoDoubleSpace(s)
    ensures Collapse(s) == s
  {
    if |s| > 0 {
      CollapseKeeps(s[1..]);
      assert [s[0]] + s[1..] == s;
    }
  }

  lemma CollapseIdempotent(s: string)
    ensures Collapse(Collapse(s)) == Collapse(s)
  {
    CollapseKeeps(Collapse(s));
  }

  lemma {:induction false} LStripSpaceAppend(a: string, b: string)
    requires |a| > 0 && !IsSpace(a[|a| - 1])
    ensures LStripSpace(a + b) == LStripSpace(a) + b
  {
    if IsSpace(a[0]) {
      assert (a + b)[1..] == a[1..] + b;
      LStripSpaceAppend(a[1..], b);
    }
  }

  /** A piece of text that ends in a non-whitespace character collapses on
      its own: nothing in it joins a run with what follows. */
  lemma {:induction false} CollapseAppend(a: string, b: string)
    requires |a| > 0 && !IsSpace(a[|a| - 1])
    ensures Collapse(a + b) == Collapse(a) + Collapse(b)
    decreases |a|
  {
    var s := a + b;
    if |a| >= 2 && IsSpace(a[0]) && IsSpace(a[1]) {
      var t := LStripSpace(a);
      assert |t| > 0 && t[|t| - 1] == a[|a| - 1] by {
        assert !IsSpace(a[|a| - 1]);
      }
      assert Collapse(s) == " " + Collapse(t + b) by {
        assert s[0] == a[0] && s[1] == a[1];
        LStripSpaceAppend(a, b);
      }
      CollapseAppend(t, b);
      ConcatAssoc(" ", Collapse(t), Collapse(b));
    } else if |a| == 1 {
      assert Collapse(s) == [a[0]] + Collapse(b) by {
        assert s[1..] == b;
      }
      assert Collapse(a) == [a[0]];
    } else {
      assert Collapse(s) == [a[0]] + Collapse(a[1..] + b) by {
        assert s[0] == a[0] && s[1] == a[1];
        assert s[1..] == a[1..] + b;
      }
      CollapseAppend(a[1..], b);
      ConcatAssoc([a[0]], Collapse(a[1..]), Collapse(b));
    }
  }

  predicate AllSpace(s: string) {
    forall i :: 0 <= i < |s| ==> IsSpace(s[i])
  }

  lemma {:induction false} LStripSpaceOfRun(run: string, b: string)
    requires AllSpace(run)
    requires |b| == 0 || !IsSpace(b[0])
    ensures LStripSpace(run + b) == b
  {
    if |run| == 0 {
      assert run + b == b;
    } else {
      assert (run + b)[1..] == run[1..] + b;
      LStripSpaceOfRun(run[1..], b);
    }
  }

  /** A run of two or more whitespace characters of any kind, up to the
      next non-whitespace character or the end, becomes one space. */
  lemma CollapseRunBefore(run: string, b: string)
    requires |run| >= 2 && AllSpace(run)
    requires |b| == 0 || !IsSpace(b[0])
    ensures Collapse(run + b) == " " + Collapse(b)
  {
    var s := run + b;
    assert s[0] == run[0] && s[1] == run[1];
    LStripSpaceOfRun(run, b);
  }

  /** Text that the collapse turns into exactly one space when it stands
      before non-whitespace: one space, or any run of two or more
      whitespace characters. */
  predicate Padding(g: string) {
    g == " " || (|g| >= 2 && AllSpace(g))
  }

  lemma CollapsePaddingBefore(g: string, b: string)
    requires Padding(g)
    requires |b| == 0 || !IsSpace(b[0])
    ensures Collapse(g + b) == " " + Collapse(b)
  {
    if g == " " {
      var s := g + b;
      assert s[1..] == b;
      assert |s| >= 2 ==> !IsSpace(s[1]);
    } else {
      CollapseRunBefore(g, b);
    }
  }

  // ---------------------------------------------------------------------
  // size_unit

  function Pow(b: nat, e: nat): (r: nat)
    ensures b > 0 ==> r > 0
  {
    if e == 0 then 1 else b * Pow(b, e - 1)
  }

  /** The index into SIZE_UNITS that `size_unit` settles on, in closed form:
      how many of 1000, 1000^2, ..., 1000^5 the size reaches. */
  function UnitFor(size: int): nat {
    if size < 1000 then 0
    else if size < 1_000_000 then 1
    else if size < 1_000_000_000 then 2
    else if size < 1_000_000_000_000 then 3
    else if size < 1_000_000_000_000_000 then 4
    else 5
  }

  /** The unit never goes past PB; a size below 1000 is shown in bytes; and
      otherwise the unit is the largest power of 1000 the size reaches, so
      the scaled value is below 1000 unless the unit is PB. */
  lemma UnitForMeaning(size: int)
    ensures UnitFor(size) < |SIZE_UNITS|
    ensures size < BASE ==> UnitFor(size) == 0
    ensures UnitFor(size) > 0 ==> size >= Pow(BASE, UnitFor(size))
    ensures UnitFor(size) < |SIZE_UNITS| - 1 ==> size < Pow(BASE, UnitFor(size) + 1)
  {
    PowersOfBase();
  }

  lemma PowersOfBase()
    ensures Pow(BASE, 0) == 1 && Pow(BASE, 1) == 1000 && Pow(BASE, 2) == 1_000_000
    ensures Pow(BASE, 3) == 1_000_000_000 && Pow(BASE, 4) == 1_000_000_000_000
    ensures Pow(BASE, 5) == 1_000_000_000_000_000 && Pow(BASE, 6) == 1_000_000_000_000_000_000
  {
  }

  /** `size_unit(size)`: divide by 1000 while the value is at least 1000 and
      a larger unit remains, then render the value with "%.2f" (given here as
      `fixed2`, the float formatting being outside the model), strip the
      trailing zeros and the point, and append the unit. The division is
      exact here. */
  method SizeUnit(size: int, fixed2: real -> string) returns (text: string)
    ensures text == StripZeros(fixed2(size as real / Pow(BASE, UnitFor(size)) as real)) + " " + SIZE_UNITS[UnitFor(size)]
  {
    PowersOfBase();
    var scaled: real := size as real;
    var i: nat := 0;
    while scaled >= BASE as real && i < |SIZE_UNITS| - 1
      invariant i <= UnitFor(size) && i < |SIZE_UNITS|
      invariant scaled * Pow(BASE, i) as real == size as real
    {
      var p := Pow(BASE, i) as real;
      assert scaled * p >= BASE as real * p;
      assert size >= Pow(BASE, i + 1);
      assert UnitFor(size) >= i + 1 by {
        assert i + 1 in {1, 2, 3, 4, 5};
      }
      assert (scaled / BASE as real) * Pow(BASE, i + 1) as real == scaled * p;
      scaled := scaled / BASE as real;
      i := i + 1;
    }
    if i < |SIZE_UNITS| - 1 {
      var p := Pow(BASE, i) as real;
      assert scaled * p < BASE as real * p;
      assert size < Pow(BASE, i + 1);
      assert UnitFor(size) <= i by {
        assert i in {0, 1, 2, 3, 4};
      }
    }
    assert scaled == size as real / Pow(BASE, i) as real;
    text := StripZeros(fixed2(scaled)) + " " + SIZE_UNITS[i];
  }

  /** `f.rstrip("0").rstrip(".")`. */
  function StripZeros(f: string): string {
    RStrip(RStrip(f, '0'), '.')
  }

  /** What "%.2f" prints for a non-negative amount of hundredths: the whole
      part, a point and exactly two decimals. */
  function Fixed2Text(cents: nat): string {
    NatText(cents / 100) + "." + [DigitChar(cents / 10 % 10), DigitChar(cents % 10)]
  }

  lemma RStripLast(s: string, last: char, c: char)
    ensures RStrip(s + [last], c) == if last == c then RStrip(s, c) else s + [last]
  {
    assert (s + [last])[..|s|] == s;
  }

  /** `rstrip("0").rstrip(".")` on a whole part, a point and two decimals. */
  lemma StripZerosDecimal(w: string, d1: char, d0: char)
    requires |w| > 0 && forall i :: 0 <= i < |w| ==> IsDigit(w[i])
    requires IsDigit(d1) && IsDigit(d0)
    ensures StripZeros(w + "." + [d1, d0]) ==
      if d0 != '0' then w + "." + [d1, d0]
      else if d1 != '0' then w + "." + [d1]
      else w
  {
    var p := w + ".";
    assert [d1, d0] == [d1] + [d0];
    ConcatAssoc(p, [d1], [d0]);
    RStripLast(p + [d1], d0, '0');
    if d0 != '0' {
      RStripLast(p + [d1], d0, '.');
    } else {
      RStripLast(p, d1, '0');
      if d1 != '0' {
        RStripLast(p, d1, '.');
      } else {
        RStripLast(w, '.', '0');
        RStripLast(w, '.', '.');
        InitLast(w);
        RStripLast(w[..|w| - 1], w[|w| - 1], '.');
      }
    }
  }

  /** The hundredths of an amount are its tens digit and its units digit. */
  lemma Hundredths(cents: nat)
    ensures cents % 100 == 10 * (cents / 10 % 10) + cents % 10
  {
    var q := cents / 100;
    var r := cents % 100;
    assert cents == 100 * q + r;
    assert cents / 10 == 10 * q + r / 10;
    assert cents / 10 % 10 == r / 10;
    assert cents % 10 == r % 10;
  }

  /** Stripping a "%.2f" text drops the zero decimals, and the point with
      them when both are zero: the result never ends in a point, and when
      it still has one it does not end in a zero. */
  lemma StripZerosFixed2(cents: nat)
    ensures var r := StripZeros(Fixed2Text(cents));
      && r == (if cents % 100 == 0 then NatText(cents / 100)
               else if cents % 10 == 0 then NatText(cents / 100) + "." + [DigitChar(cents / 10 % 10)]
               else Fixed2Text(cents))
      && |r| > 0 && r[|r| - 1] != '.'
      && ('.' in r ==> r[|r| - 1] != '0')
  {
    var w := NatText(cents / 100);
    NatTextDigits(cents / 100);
    var d1, d0 := DigitChar(cents / 10 % 10), DigitChar(cents % 10);
    assert Fixed2Text(cents) == w + "." + [d1, d0];
    StripZerosDecimal(w, d1, d0);
    Hundredths(cents);
    assert d0 == '0' <==> cents % 10 == 0;
    assert d1 == '0' <==> cents / 10 % 10 == 0;
    assert cents % 100 == 0 <==> d0 == '0' && d1 == '0';
    assert '.' !in w;
    var r := StripZeros(Fixed2Text(cents));
    if d0 != '0' {
      assert r == w + "." + [d1, d0];
    } else if d1 != '0' {
      assert r == w + "." + [d1];
    } else {
      assert r == w;
    }
  }

  /** The examples of the `size_unit` docstring get the units they show, and
      "131.00" is stripped to "131". */
  lemma DocstringExamples()
    ensures SIZE_UNITS[UnitFor(131)] == "B"
    ensures SIZE_UNITS[UnitFor(58812)] == "KB"
    ensures SIZE_UNITS[UnitFor(68819826)] == "MB"
    ensures SIZE_UNITS[UnitFor(39756861649)] == "GB"
    ensures SIZE_UNITS[UnitFor(18754875155724)] == "TB"
    ensures StripZeros(Fixed2Text(13100)) == "131"
  {
    StripWhole131();
  }

  lemma StripWhole131()
    ensures StripZeros(Fixed2Text(13100)) == "131"
  {
    StripZerosFixed2(13100);
    assert NatText(1) == "1";
    assert NatText(13) == NatText(1) + "3";
    assert NatText(131) == NatText(13) + "1";
  }
}
