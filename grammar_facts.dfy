/** Properties of the parser functions: literal matching, whitespace, the
    string scanner, and the outcomes the library's tests expect. */
module GrammarFacts {

  import opened Json
  import opened Wrappers
  import opened Unicode
  import opened Grammar

  /** A literal without NUL bytes is in the input exactly when each of its bytes
      is read at the matching offset, which is how my_parse_literal compares. */
  lemma LiteralMatch(s: seq<byte>, i: nat, lit: seq<byte>)
    requires |lit| > 0 && Nul !in lit
    ensures (i + |lit| <= |s| && s[i..i + |lit|] == lit) <==> (forall k :: 0 <= k < |lit| ==> At(s, i + k) == lit[k])
  {
    if forall k :: 0 <= k < |lit| ==> At(s, i + k) == lit[k] {
      if i + |lit| > |s| {
        PastEnd(s, i, if |s| < i then 0 else |s| - i, lit);
        assert false;
      }
      forall k | 0 <= k < |lit| ensures s[i..i + |lit|][k] == lit[k] {
        assert At(s, i + k) == lit[k];
      }
    }
  }

  /** Past the end of the input the terminator does not match a literal byte. */
  lemma PastEnd(s: seq<byte>, i: nat, k: nat, lit: seq<byte>)
    requires k < |lit| && i + k >= |s| && Nul !in lit
    ensures At(s, i + k) != lit[k]
  {
  }

  // ------------------------------------------------------------ the root

  /** my_parse_whitespace stops exactly at the first byte of a run that is not
      whitespace. */
  lemma SkipRun(s: seq<byte>, i: nat, k: nat)
    requires i <= k && !IsWhitespace(At(s, k))
    requires forall j :: i <= j < k ==> IsWhitespace(At(s, j))
    ensures SkipWhitespace(s, i) == k
  {
  }

  /** An input of whitespace only (the empty one included) holds no value. */
  lemma BlankInput(s: seq<byte>, strtod: Strtod)
    requires forall k :: 0 <= k < |s| ==> IsWhitespace(s[k])
    ensures Parse(s, strtod) == (ExpectValue, Null)
  {
    SkipRun(s, 0, |s|);
  }

  /** The root rule of my_parse: the parse succeeds exactly when one value is
      read and only whitespace comes after it up to the terminator; an error of
      the value is the error of the parse. */
  lemma ParseRoot(s: seq<byte>, strtod: Strtod)
    ensures var r := ParseValue(s, SkipWhitespace(s, 0), strtod);
            (Parse(s, strtod).0 == Ok <==> r.Done? && At(s, SkipWhitespace(s, r.next)) == Nul)
            && (Parse(s, strtod).0 == Ok ==> Parse(s, strtod).1 == r.val)
            && (r.Fail? ==> Parse(s, strtod) == (r.code, Null))
  {
  }

  /** A value followed by whitespace to the end of the input is the result. */
  lemma TrailingBlank(s: seq<byte>, strtod: Strtod, v: Value, j: nat)
    requires ParseValue(s, SkipWhitespace(s, 0), strtod) == Done(v, j)
    requires forall k :: j <= k < |s| ==> IsWhitespace(s[k])
    ensures Parse(s, strtod) == (Ok, v)
  {
    SkipRun(s, j, |s|);
  }

  /** A value followed, after whitespace, by a byte that is neither whitespace
      nor the terminator is RootNotSingular. */
  lemma TrailingByte(s: seq<byte>, strtod: Strtod, v: Value, j: nat, k: nat)
    requires ParseValue(s, SkipWhitespace(s, 0), strtod) == Done(v, j)
    requires j <= k < |s| && s[k] != Nul && !IsWhitespace(s[k])
    requires forall i :: j <= i < k ==> IsWhitespace(s[i])
    ensures Parse(s, strtod) == (RootNotSingular, Null)
  {
    SkipRun(s, j, k);
  }
}
