/** The number validation of my_parse_number against the grammar of
    RFC 8259 section 6: every lexeme it accepts is a number, and every number
    followed by a byte that cannot extend it is accepted in full. */
module NumberFacts {

  import opened Json
  import opened Wrappers
  import opened Grammar

  /** The parts of a number found at positions of the input itself. */
  predicate SplitAt(s: seq<byte>, i: nat, p: nat, q: nat, r: nat, j: nat)
  {
    i <= p <= q <= r <= j <= |s| &&
    IsSignPart(s, i, p) && IsIntegerPart(s, p, q) && IsFractionPart(s, q, r) && IsExponentPart(s, r, j)
  }

  /** A digit run inside a slice is a digit run of the input at shifted positions. */
  lemma DigitsShift(s: seq<byte>, i: nat, j: nat, x: nat, y: nat)
    requires i <= j <= |s| && y <= j - i
    ensures DigitsBetween(s[i..j], x, y) <==> DigitsBetween(s, i + x, i + y)
  {
    if DigitsBetween(s[i..j], x, y) {
      forall k | i + x <= k < i + y ensures IsDigit(s[k]) {
        assert s[k] == s[i..j][k - i];
      }
    }
    if DigitsBetween(s, i + x, i + y) {
      forall k | x <= k < y ensures IsDigit(s[i..j][k]) {
        assert s[i..j][k] == s[i + k];
      }
    }
  }

  /** A split of the lexeme s[i..j] is a split of the input at shifted positions. */
  lemma SplitShift(s: seq<byte>, i: nat, j: nat, a: nat, b: nat, c: nat)
    requires i <= j <= |s|
    ensures NumberSplit(s[i..j], a, b, c) <==> SplitAt(s, i, i + a, i + b, i + c, j)
  {
    if a <= b <= c <= j - i {
      DigitsShift(s, i, j, a + 1, b);
      DigitsShift(s, i, j, b + 1, c);
      DigitsShift(s, i, j, c + 1, j - i);
      DigitsShift(s, i, j, c + 2, j - i);
      if a < j - i { assert s[i..j][a] == s[i + a]; }
      if 0 < j - i { assert s[i..j][0] == s[i]; }
      if b < j - i { assert s[i..j][b] == s[i + b]; }
      if c < j - i { assert s[i..j][c] == s[i + c]; }
      if c + 1 < j - i { assert s[i..j][c + 1] == s[i + c + 1]; }
    }
  }

  /** A digit run read by DigitsEnd is a run of digits of the input. */
  lemma DigitsEndRun(s: seq<byte>, i: nat)
    requires i <= |s|
    ensures DigitsBetween(s, i, DigitsEnd(s, i))
  {
    var j := DigitsEnd(s, i);
    forall k | i <= k < j ensures IsDigit(s[k]) {
      assert At(s, k) == s[k];
    }
  }

  /** DigitsEnd stops exactly where a run of digits ends. */
  lemma {:induction false} DigitsEndExact(s: seq<byte>, x: nat, y: nat)
    requires DigitsBetween(s, x, y) && !IsDigit(At(s, y))
    ensures DigitsEnd(s, x) == y
    decreases y - x
  {
    if x < y {
      assert IsDigit(At(s, x));
      DigitsEndExact(s, x + 1, y);
    }
  }

  lemma IntegerSound(s: seq<byte>, p: nat)
    requires IntegerEnd(s, p).Some?
    ensures IsIntegerPart(s, p, IntegerEnd(s, p).value)
  {
    if At(s, p) != Zero {
      DigitsEndRun(s, p + 1);
    }
  }

  lemma FractionSound(s: seq<byte>, q: nat)
    requires q <= |s| && FractionEnd(s, q).Some?
    ensures IsFractionPart(s, q, FractionEnd(s, q).value)
  {
    if At(s, q) == Dot {
      DigitsEndRun(s, q + 2);
    }
  }

  lemma ExponentSound(s: seq<byte>, r: nat)
    requires r <= |s| && ExponentEnd(s, r).Some?
    ensures IsExponentPart(s, r, ExponentEnd(s, r).value)
  {
    if IsExponentMark(At(s, r)) {
      var e := if At(s, r + 1) == Plus || At(s, r + 1) == Minus then r + 2 else r + 1;
      DigitsEndRun(s, e + 1);
    }
  }

  /** Everything NumberEnd accepts is a number lexeme ending inside the input. */
  lemma NumberEndSound(s: seq<byte>, i: nat)
    requires NumberEnd(s, i).Some?
    ensures i < NumberEnd(s, i).value <= |s|
    ensures IsNumber(s[i..NumberEnd(s, i).value])
  {
    var j := NumberEnd(s, i).value;
    assert i < |s|;
    var p := if At(s, i) == Minus then i + 1 else i;
    IntegerSound(s, p);
    var q := IntegerEnd(s, p).value;
    FractionSound(s, q);
    var r := FractionEnd(s, q).value;
    ExponentSound(s, r);
    SplitNumber(s, i, p, q, r, j);
  }

  /** Parts found in the input make the slice they span a number lexeme. */
  lemma SplitNumber(s: seq<byte>, i: nat, p: nat, q: nat, r: nat, j: nat)
    requires SplitAt(s, i, p, q, r, j)
    ensures IsNumber(s[i..j])
  {
    SplitShift(s, i, j, p - i, q - i, r - i);
    assert NumberSplit(s[i..j], p - i, q - i, r - i);
  }

  /** NumberEnd composes the three part scans. */
  lemma NumberEndOfParts(s: seq<byte>, i: nat, p: nat, q: nat, r: nat, j: nat)
    requires (if At(s, i) == Minus then i + 1 else i) == p
    requires IntegerEnd(s, p) == Some(q) && FractionEnd(s, q) == Some(r) && ExponentEnd(s, r) == Some(j)
    ensures NumberEnd(s, i) == Some(j)
  {
  }

  lemma IntegerComplete(s: seq<byte>, p: nat, q: nat)
    requires IsIntegerPart(s, p, q) && !IsDigit(At(s, q))
    ensures IntegerEnd(s, p) == Some(q)
  {
    if At(s, p) != Zero { DigitsEndExact(s, p + 1, q); }
  }

  lemma FractionComplete(s: seq<byte>, q: nat, r: nat)
    requires IsFractionPart(s, q, r) && !IsDigit(At(s, r)) && (q == r ==> At(s, r) != Dot)
    ensures FractionEnd(s, q) == Some(r)
  {
    if q < r { DigitsEndExact(s, q + 1, r); }
  }

  lemma ExponentComplete(s: seq<byte>, r: nat, j: nat)
    requires IsExponentPart(s, r, j) && !IsDigit(At(s, j)) && (r == j ==> !IsExponentMark(At(s, j)))
    ensures ExponentEnd(s, r) == Some(j)
  {
    if r < j {
      if DigitsBetween(s, r + 1, j) { DigitsEndExact(s, r + 1, j); }
      else { DigitsEndExact(s, r + 2, j); }
    }
  }

  /** The parts of a number followed by a byte that cannot extend it are
      exactly where the scans find them. */
  lemma PartsComplete(s: seq<byte>, i: nat, p: nat, q: nat, r: nat, j: nat)
    requires SplitAt(s, i, p, q, r, j) && EndsNumber(At(s, j))
    ensures NumberEnd(s, i) == Some(j)
  {
    IntegerComplete(s, p, q);
    FractionComplete(s, q, r);
    ExponentComplete(s, r, j);
    NumberEndOfParts(s, i, p, q, r, j);
  }

  /** A number lexeme followed by a byte that cannot extend it is accepted
      in full: the cursor lands just after it. */
  lemma {:induction false} NumberEndComplete(s: seq<byte>, i: nat, j: nat)
    requires i <= j <= |s| && IsNumber(s[i..j]) && EndsNumber(At(s, j))
    ensures NumberEnd(s, i) == Some(j)
  {
    var a, b, c :| NumberSplit(s[i..j], a, b, c);
    SplitShift(s, i, j, a, b, c);
    PartsComplete(s, i, i + a, i + b, i + c, j);
  }

  /** Validation fails only when no prefix of the remaining input that is
      followed by a byte which cannot extend it is a number. */
  lemma NumberEndNone(s: seq<byte>, i: nat)
    requires NumberEnd(s, i).None?
    ensures forall j :: i <= j <= |s| && EndsNumber(At(s, j)) ==> !IsNumber(s[i..j])
  {
    forall j | i <= j <= |s| && EndsNumber(At(s, j)) ensures !IsNumber(s[i..j]) {
      if IsNumber(s[i..j]) {
        NumberEndComplete(s, i, j);
      }
    }
  }
}
