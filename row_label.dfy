/** Row labels: A..Z, then AA..ZZ, then AAA..., case-insensitive. A label is a bijective
    base-26 numeral (A = 1, ..., Z = 26, most significant letter first); the zero-based
    row index is its value minus one. This is the specification that the controller's
    getRowNum loop is proved against. */
module RowLabel {
  import opened Cells

  predicate IsUpper(c: char)
  {
    'A' <= c <= 'Z'
  }

  predicate IsLower(c: char)
  {
    'a' <= c <= 'z'
  }

  /** The letters a label may contain (ASCII only). */
  predicate IsLetter(c: char)
  {
    IsUpper(c) || IsLower(c)
  }

  /** Character.toLowerCase on ASCII: upper-case letters move to lower case, everything
      else stays as it is. */
  function ToLower(c: char): (l: char)
    ensures IsLetter(c) <==> IsLetter(l)
    ensures IsLetter(c) ==> IsLower(l)
    ensures IsLower(c) ==> l == c
    ensures IsUpper(c) ==> l as int == c as int - 'A' as int + 'a' as int
  {
    if IsUpper(c) then (c as int - 'A' as int + 'a' as int) as char else c
  }

  /** The digit a letter stands for: a and A are 1, z and Z are 26. */
  function LetterValue(c: char): (d: int)
    requires IsLetter(c)
    ensures 1 <= d <= 26
  {
    ToLower(c) as int - 'a' as int + 1
  }

  predicate IsLabel(s: string)
  {
    forall i | 0 <= i < |s| :: IsLetter(s[i])
  }

  predicate AllUpper(s: string)
  {
    forall i | 0 <= i < |s| :: IsUpper(s[i])
  }

  predicate AllLower(s: string)
  {
    forall i | 0 <= i < |s| :: IsLower(s[i])
  }

  /** The label with every letter in lower case. */
  function LowerLabel(s: string): (l: string)
    ensures |l| == |s|
    ensures forall i | 0 <= i < |s| :: l[i] == ToLower(s[i])
  {
    seq(|s|, i requires 0 <= i < |s| => ToLower(s[i]))
  }

  /** The value of the numeral: n := 26 * n + digit, over the letters from left to right. */
  function Numeral(s: string): nat
    requires IsLabel(s)
  {
    if s == [] then 0 else 26 * Numeral(s[..|s| - 1]) + LetterValue(s[|s| - 1])
  }

  /** The zero-based row a label names, or "Invalid row" if it holds a non-letter. The
      empty label is not rejected here: it names row -1, which the store then refuses. */
  function Decode(s: string): (r: Result<int>)
    ensures r.Err? <==> !IsLabel(s)
    ensures r.Err? ==> r.error == InvalidRow
  {
    if IsLabel(s) then Ok(Numeral(s) - 1) else Err(InvalidRow)
  }

  /** The value of the label of n A's, the first label of length n. */
  function Lo(n: nat): nat
  {
    if n == 0 then 0 else 26 * Lo(n - 1) + 1
  }

  // ---------------------------------------------------------------------------
  // Values

  /** The labels the controller's documentation and tests name, and the two that fail or
      fall outside the store. */
  lemma DecodeExamples()
    ensures Decode("A") == Ok(0)
    ensures Decode("B") == Ok(1)
    ensures Decode("Z") == Ok(25)
    ensures Decode("AA") == Ok(26)
    ensures Decode("AD") == Ok(29)
    ensures Decode("ad") == Ok(29)
    ensures Decode("") == Ok(-1)
    ensures Decode("A1") == Err(InvalidRow)
  {
    assert "AA"[..1] == "A";
    assert "AD"[..1] == "A";
    assert "ad"[..1] == "a";
    assert !IsLetter("A1"[1]);
  }

  // ---------------------------------------------------------------------------
  // Case

  lemma {:induction false} NumeralLower(s: string)
    requires IsLabel(s)
    ensures IsLabel(LowerLabel(s)) && Numeral(LowerLabel(s)) == Numeral(s)
  {
    if s != [] {
      var p := s[..|s| - 1];
      NumeralLower(p);
      assert LowerLabel(s)[..|s| - 1] == LowerLabel(p);
    }
  }

  /** Decoding ignores case: a label and its lower-case form name the same row, and a
      label with a non-letter is rejected in either form. */
  lemma DecodeIgnoresCase(s: string)
    ensures Decode(LowerLabel(s)) == Decode(s)
  {
    if IsLabel(s) {
      NumeralLower(s);
    } else {
      var i :| 0 <= i < |s| && !IsLetter(s[i]);
      assert !IsLetter(LowerLabel(s)[i]);
    }
  }

  // ---------------------------------------------------------------------------
  // Order

  lemma {:induction false} LoMonotone(m: nat, n: nat)
    requires m <= n
    ensures Lo(m) <= Lo(n)
    decreases n
  {
    if m < n {
      LoMonotone(m, n - 1);
    }
  }

  /** A label of length n has a value from Lo(n) (all A's) to Lo(n + 1) - 1 (all Z's). */
  lemma {:induction false} NumeralRange(s: string)
    requires IsLabel(s)
    ensures Lo(|s|) <= Numeral(s) < Lo(|s| + 1)
  {
    if s != [] {
      NumeralRange(s[..|s| - 1]);
    }
  }

  /** Every non-empty label names a row the store accepts, and the labels of length n
      name rows within Lo(n) - 1 to Lo(n + 1) - 2 (DecodeRangeOnto: all of them). */
  lemma DecodeRange(s: string)
    requires IsLabel(s)
    ensures Decode(s).Ok? && Lo(|s|) - 1 <= Decode(s).value <= Lo(|s| + 1) - 2
    ensures s != [] ==> Decode(s).value >= 0
  {
    NumeralRange(s);
    if s != [] {
      LoMonotone(1, |s|);
    }
  }

  /** A shorter label names an earlier row: A..Z come before AA..ZZ, which come before AAA... */
  lemma ShorterLabelEarlierRow(s: string, t: string)
    requires IsLabel(s) && IsLabel(t) && |s| < |t|
    ensures Decode(s).value < Decode(t).value
  {
    NumeralRange(s);
    NumeralRange(t);
    LoMonotone(|s| + 1, |t|);
  }

  lemma {:induction false} NumeralLexOrder(s: string, t: string, i: nat)
    requires IsLabel(s) && IsLabel(t) && |s| == |t|
    requires i < |s| && s[..i] == t[..i] && LetterValue(s[i]) < LetterValue(t[i])
    ensures Numeral(s) < Numeral(t)
  {
    var n := |s|;
    var p, q := s[..n - 1], t[..n - 1];
    if i < n - 1 {
      assert p[..i] == s[..i] && q[..i] == t[..i];
      NumeralLexOrder(p, q, i);
    } else {
      assert p == q;
    }
  }

  /** Labels of equal length are ordered lexicographically: if they agree up to position i
      and differ there in two letters of the same case, the earlier letter gives the earlier row. */
  lemma EqualLengthLexicographic(s: string, t: string, i: nat)
    requires IsLabel(s) && IsLabel(t) && |s| == |t|
    requires i < |s| && s[..i] == t[..i]
    requires (IsUpper(s[i]) && IsUpper(t[i])) || (IsLower(s[i]) && IsLower(t[i]))
    requires s[i] < t[i]
    ensures Decode(s).value < Decode(t).value
  {
    NumeralLexOrder(s, t, i);
  }

  // ---------------------------------------------------------------------------
  // Bijectivity

  /** The last digit of a bijective base-26 numeral, and what precedes it, are determined
      by its value. */
  lemma DigitStep(x: int, y: int, a: int, b: int)
    requires 1 <= a <= 26 && 1 <= b <= 26
    requires 26 * x + a == 26 * y + b
    ensures x == y && a == b
  {
    assert 26 * (x - y) == b - a;
  }

  /** Two letters with the same digit are the same letter up to case. */
  lemma SameDigitSameLetter(c: char, d: char)
    requires IsLetter(c) && IsLetter(d) && LetterValue(c) == LetterValue(d)
    ensures ToLower(c) == ToLower(d)
  {
  }

  /** Lower-casing a non-empty label is lower-casing its prefix and its last letter. */
  lemma LowerLabelSplit(s: string)
    requires s != []
    ensures LowerLabel(s) == LowerLabel(s[..|s| - 1]) + [ToLower(s[|s| - 1])]
  {
    assert LowerLabel(s)[..|s| - 1] == LowerLabel(s[..|s| - 1]);
  }

  lemma {:induction false} NumeralInjective(s: string, t: string)
    requires IsLabel(s) && IsLabel(t) && |s| == |t|
    requires Numeral(s) == Numeral(t)
    ensures LowerLabel(s) == LowerLabel(t)
  {
    if s != [] {
      var n := |s|;
      var p, q := s[..n - 1], t[..n - 1];
      var a, b := LetterValue(s[n - 1]), LetterValue(t[n - 1]);
      DigitStep(Numeral(p), Numeral(q), a, b);
      NumeralInjective(p, q);
      SameDigitSameLetter(s[n - 1], t[n - 1]);
      LowerLabelSplit(s);
      LowerLabelSplit(t);
    }
  }

  /** Two labels that name the same row are the same label up to case, and the same
      label outright when both are written in one case. */
  lemma DecodeInjective(s: string, t: string)
    requires IsLabel(s) && IsLabel(t)
    requires Decode(s) == Decode(t)
    ensures LowerLabel(s) == LowerLabel(t)
    ensures (AllUpper(s) && AllUpper(t)) || (AllLower(s) && AllLower(t)) ==> s == t
  {
    if |s| < |t| {
      ShorterLabelEarlierRow(s, t);
    } else if |t| < |s| {
      ShorterLabelEarlierRow(t, s);
    } else {
      NumeralInjective(s, t);
      assert forall i | 0 <= i < |s| :: ToLower(s[i]) == ToLower(t[i]) by {
        forall i | 0 <= i < |s|
          ensures ToLower(s[i]) == ToLower(t[i])
        {
          assert LowerLabel(s)[i] == LowerLabel(t)[i];
        }
      }
    }
  }

  /** Every row from Lo(n) - 1 to Lo(n + 1) - 2 is named by a label of length n. */
  lemma DecodeRangeOnto(n: nat, row: int)
    requires Lo(n) - 1 <= row <= Lo(n + 1) - 2
    ensures exists s :: IsLabel(s) && AllUpper(s) && |s| == n && Decode(s) == Ok(row)
  {
    var s := Spell(row + 1);
    NumeralRange(s);
    if |s| < n {
      LoMonotone(|s| + 1, n);
    } else if n < |s| {
      LoMonotone(n + 1, |s|);
    }
    assert Decode(s) == Ok(row);
  }

  /** The upper-case label whose numeral value is m. */
  ghost function Spell(m: nat): (s: string)
    ensures IsLabel(s) && AllUpper(s) && Numeral(s) == m
    decreases m
  {
    if m == 0 then []
    else
      var q, d := (m - 1) / 26, (m - 1) % 26;
      var c := ('A' as int + d) as char;
      var p := Spell(q);
      assert (p + [c])[..|p|] == p;
      p + [c]
  }

  /** Every row of the store has a label: decoding is onto the non-negative rows. */
  lemma EveryRowHasLabel(row: nat)
    ensures exists s :: IsLabel(s) && AllUpper(s) && s != [] && Decode(s) == Ok(row)
  {
    var s := Spell(row + 1);
    assert s != [];
    assert Decode(s) == Ok(row);
  }
}
