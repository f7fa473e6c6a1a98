/** The JavaScript string built-ins that formatUnits relies on, with their index clamping, and `indexOf` for the parser that reads its output back. */
module JsStrings {
  import opened Decimal

  /** String.prototype.padStart(targetLength, fill) for a one-character fill. */
  function PadStart(s: string, targetLength: nat, fill: char): (r: string)
    ensures |r| == if |s| >= targetLength then |s| else targetLength
    ensures r[|r| - |s|..] == s
    ensures forall i :: 0 <= i < |r| - |s| ==> r[i] == fill
  {
    if |s| >= targetLength then s else seq(targetLength - |s|, _ => fill) + s
  }

  /** Padding a short string to one more character puts exactly one more fill in front. */
  lemma {:induction false} PadStartOneMore(s: string, targetLength: nat, fill: char)
    requires |s| <= targetLength
    ensures PadStart(s, targetLength + 1, fill) == [fill] + PadStart(s, targetLength, fill)
  {
    assert seq(targetLength + 1 - |s|, _ => fill) == [fill] + seq(targetLength - |s|, _ => fill);
  }

  /** How String.prototype.slice turns a possibly negative index into a position of a string of length `len`. */
  function RelativeIndex(len: nat, i: int): (k: nat)
    ensures k <= len
    ensures 0 <= i <= len ==> k == i
    ensures i < 0 && len + i >= 0 ==> k == len + i
    ensures i < 0 && len + i < 0 ==> k == 0
    ensures i > len ==> k == len
  {
    if i < 0 then (if len + i < 0 then 0 else len + i) else if i > len then len else i
  }

  /** String.prototype.slice(start, end); a negative index counts from the end.
      The two ensures document the built-in's semantics in terms of RelativeIndex; SliceCut states what formatUnits uses. */
  function Slice(s: string, start: int, end: int): (r: string)
    ensures RelativeIndex(|s|, start) < RelativeIndex(|s|, end) ==>
              r == s[RelativeIndex(|s|, start)..RelativeIndex(|s|, end)]
    ensures RelativeIndex(|s|, start) >= RelativeIndex(|s|, end) ==> r == ""
  {
    var from, to := RelativeIndex(|s|, start), RelativeIndex(|s|, end);
    if from < to then s[from..to] else ""
  }

  /** slice(0, -k) and slice(-k) of a string longer than k: everything but the last k characters, and those. */
  lemma {:induction false} SliceCut(s: string, k: nat)
    requires k > 0 && |s| > k
    ensures Slice(s, 0, -(k as int)) == s[..|s| - k]
    ensures Slice(s, -(k as int), |s|) == s[|s| - k..]
  {
    assert RelativeIndex(|s|, -(k as int)) == |s| - k;
  }

  /** s.replace(/0+$/, ""): drop the maximal run of '0' at the end. */
  function TrimTrailingZeros(s: string): (r: string)
    ensures |r| <= |s| && s == r + Zeros(|s| - |r|)
    ensures r == "" || r[|r| - 1] != '0'
  {
    if s != "" && s[|s| - 1] == '0' then
      var r := TrimTrailingZeros(s[..|s| - 1]);
      assert s == s[..|s| - 1] + "0";
      r
    else
      assert s == s + Zeros(0);
      s
  }

  /** Position of the first `c` in `s`, or |s| when there is none. */
  function IndexOf(s: string, c: char): (k: nat)
    ensures k <= |s| && (k < |s| ==> s[k] == c)
    ensures forall i :: 0 <= i < k ==> s[i] != c
  {
    if s == "" then 0 else if s[0] == c then 0 else 1 + IndexOf(s[1..], c)
  }

  /** A character other than `c` put in front moves the first `c` one place on, and finds it exactly when it was there. */
  lemma {:induction false} IndexOfAfter(d: char, s: string, c: char)
    requires d != c
    ensures IndexOf([d] + s, c) == IndexOf(s, c) + 1
    ensures c in [d] + s <==> c in s
  {
    assert ([d] + s)[1..] == s;
    if c in s {
      var i := IndexOf(s, c);
      assert s[i] == c;
    }
    if c in [d] + s {
      var i :| 0 <= i < |[d] + s| && ([d] + s)[i] == c;
      assert i > 0 && s[i - 1] == c;
    }
  }

  lemma {:induction false} PadStartZeros(s: string, targetLength: nat)
    requires AllDigits(s)
    ensures AllDigits(PadStart(s, targetLength, '0'))
    ensures DigitsValue(PadStart(s, targetLength, '0')) == DigitsValue(s)
  {
    var r := PadStart(s, targetLength, '0');
    var k := |r| - |s|;
    assert r == Zeros(k) + s;
    DigitsValueZero(Zeros(k));
    DigitsValueAppend(Zeros(k), s);
  }

  /** Stripping trailing zeros leaves exactly the digits that carry value. */
  lemma {:induction false} TrimTrailingZerosValue(s: string)
    requires AllDigits(s)
    ensures AllDigits(TrimTrailingZeros(s))
    ensures TrimTrailingZeros(s) == "" <==> DigitsValue(s) == 0
    ensures DigitsValue(s) == DigitsValue(TrimTrailingZeros(s)) * Pow10(|s| - |TrimTrailingZeros(s)|)
  {
    var r := TrimTrailingZeros(s);
    var z := Zeros(|s| - |r|);
    assert s == r + z;
    assert forall i :: 0 <= i < |r| ==> r[i] == s[i];
    DigitsValueZero(z);
    DigitsValueAppend(r, z);
    DigitsValueZero(s);
    if r != "" {
      assert s[|r| - 1] == r[|r| - 1];
    }
  }

  /** Zeros appended after a last digit other than '0' are exactly what the trim removes. */
  lemma {:induction false} TrimZerosAfter(t: string, k: nat)
    requires t == "" || t[|t| - 1] != '0'
    ensures TrimTrailingZeros(t + Zeros(k)) == t
  {
    var s := t + Zeros(k);
    var r := TrimTrailingZeros(s);
    var z := Zeros(|s| - |r|);
    assert s == r + z;
    assert r == s[..|r|] && t == s[..|t|];
  }

}
