/**
 * `natural_sort(string)`: the sort key that splits a reference designator into
 * alternating text and digit runs, the digit runs compared as numbers, so that
 * "R2" sorts before "R10".
 */
module NaturalSort {
  import opened Text
  import Sorting

  /** One element of the key list: a text run (Python str) or a digit run read as a number (Python int). */
  datatype Chunk = Str(s: string) | Int(n: nat)

  /** Length of the leading run of non-digits. */
  function NonDigitPrefix(s: string): (n: nat)
    ensures n <= |s|
    ensures forall i :: 0 <= i < n ==> !IsDigit(s[i])
    ensures n < |s| ==> IsDigit(s[n])
    decreases |s|
  {
    if s == [] || IsDigit(s[0]) then 0 else 1 + NonDigitPrefix(s[1..])
  }

  /** Length of the leading run of digits. */
  function DigitPrefix(s: string): (n: nat)
    ensures n <= |s|
    ensures forall i :: 0 <= i < n ==> IsDigit(s[i])
    ensures n < |s| ==> !IsDigit(s[n])
    decreases |s|
  {
    if s == [] || !IsDigit(s[0]) then 0 else 1 + DigitPrefix(s[1..])
  }

  /**
   * `re.split(r'(\d+)', s)` with every digit run turned into its number:
   * text, number, text, ..., text (the text runs may be empty, and hold no
   * digit). Starting and ending with text, the key never makes Python compare
   * a str with an int when it orders two keys.
   */
  function NaturalKey(s: string): (r: seq<Chunk>)
    ensures Alternates(r)
    ensures forall k :: 0 <= k < |r| && r[k].Str? ==> NoDigit(r[k].s)
    decreases |s|
  {
    var i := NonDigitPrefix(s);
    if i == |s| then [Str(s)]
    else
      var j := i + DigitPrefix(s[i..]);
      var rest := NaturalKey(s[j..]);
      var r := [Str(s[..i]), Int(DecimalValue(s[i..j]))] + rest;
      assert r[2..] == rest;
      assert forall k :: 2 <= k < |r| ==> r[k] == rest[k - 2];
      r
  }

  /** No character of `t` is a digit. */
  predicate NoDigit(t: string) {
    forall i :: 0 <= i < |t| ==> !IsDigit(t[i])
  }

  /** Text, then any number of (number, text) pairs. */
  predicate Alternates(key: seq<Chunk>)
    decreases |key|
  {
    || (|key| == 1 && key[0].Str?)
    || (|key| >= 3 && key[0].Str? && key[1].Int? && Alternates(key[2..]))
  }

  /** Python's `<` between two key elements; str-versus-int never arises (see NaturalKey). */
  function ChunkLt(a: Chunk, b: Chunk): bool {
    match (a, b)
    case (Str(x), Str(y)) => StringLt(x, y)
    case (Int(m), Int(n)) => m < n
    case (Str(_), Int(_)) => true
    case (Int(_), Str(_)) => false
  }

  /** Python's `<` between two keys (lists compare element by element). */
  function KeyLt(a: seq<Chunk>, b: seq<Chunk>): bool {
    Sorting.SeqLt(a, b, ChunkLt)
  }

  lemma ChunkLtIsStrictOrder()
    ensures Sorting.Irreflexive(ChunkLt)
    ensures Sorting.Transitive(ChunkLt)
  {
    StringLtIsStrictOrder();
  }

  lemma KeyLtIsStrictOrder()
    ensures Sorting.Irreflexive(KeyLt)
    ensures Sorting.Transitive(KeyLt)
  {
    ChunkLtIsStrictOrder();
    forall a: seq<Chunk> ensures !KeyLt(a, a) {
      Sorting.SeqLtIrreflexive(a, ChunkLt);
    }
    forall a: seq<Chunk>, b: seq<Chunk>, c: seq<Chunk> | KeyLt(a, b) && KeyLt(b, c)
      ensures KeyLt(a, c)
    {
      Sorting.SeqLtTransitive(a, b, c, ChunkLt);
    }
  }

  lemma KeyOfR2()
    ensures NaturalKey("R2") == [Str("R"), Int(2), Str("")]
  {
    assert NonDigitPrefix("R2") == 1;
    assert "R2"[1..] == "2";
    assert DigitPrefix("2") == 1;
    assert "R2"[..1] == "R" && "R2"[1..2] == "2" && "R2"[2..] == "";
    assert DecimalValue("2") == 2 by {
      assert "2"[..0] == "";
    }
  }

  lemma KeyOfR10()
    ensures NaturalKey("R10") == [Str("R"), Int(10), Str("")]
  {
    assert NonDigitPrefix("R10") == 1;
    assert "R10"[1..] == "10";
    assert DigitPrefix("10") == 2 by {
      assert "10"[1..] == "0";
    }
    assert "R10"[..1] == "R" && "R10"[1..3] == "10" && "R10"[3..] == "";
    assert DecimalValue("10") == 10 by {
      assert "10"[..1] == "1";
      assert "1"[..0] == "";
    }
  }

  /** "R2" comes before "R10" under the natural key, although plain string order puts "R10" first. */
  lemma NaturalOrderOfDesignators()
    ensures KeyLt(NaturalKey("R2"), NaturalKey("R10"))
    ensures StringLt("R10", "R2")
  {
    KeyOfR2();
    KeyOfR10();
    assert StringLt("R", "R") == false by {
      Sorting.SeqLtIrreflexive("R", CharLt);
    }
  }
}
