/** What the protocol's readings of bytes and JSON values mean, told without how they are computed. */
module WireMeaning {
  import opened Wrappers
  import opened Wire

  // ----- Lines

  /** Space, tab, newline, vertical tab, form feed and carriage return. */
  const WHITE: set<byte> := {32, 9, 10, 11, 12, 13}

  /** What is stripped is white space at both ends, and all of it. */
  lemma StripIs(s: seq<byte>) returns (before: seq<byte>, after: seq<byte>)
    ensures s == before + Strip(s) + after
    ensures (forall b :: b in before || b in after ==> b in WHITE)
    ensures Strip(s) != [] ==> Strip(s)[0] !in WHITE && Strip(s)[|Strip(s)| - 1] !in WHITE
  {
    var left := StripLeft(s);
    before := StripLeftIs(s);
    after := StripRightIs(left);
    if Strip(s) != [] {
      assert Strip(s)[0] == left[0];
    }
  }

  lemma {:induction false} StripLeftIs(s: seq<byte>) returns (before: seq<byte>)
    ensures s == before + StripLeft(s) && forall b :: b in before ==> b in WHITE
    ensures StripLeft(s) != [] ==> StripLeft(s)[0] !in WHITE
  {
    before := [];
    if s != [] && IsSpace(s[0]) {
      var rest := StripLeftIs(s[1..]);
      before := [s[0]] + rest;
      assert s == [s[0]] + s[1..];
    }
  }

  lemma {:induction false} StripRightIs(s: seq<byte>) returns (after: seq<byte>)
    ensures s == StripRight(s) + after && forall b :: b in after ==> b in WHITE
    ensures StripRight(s) != [] ==> StripRight(s)[|StripRight(s)| - 1] !in WHITE
  {
    after := [];
    if s != [] && IsSpace(s[|s| - 1]) {
      var last := |s| - 1;
      var rest := StripRightIs(s[..last]);
      after := rest + [s[last]];
      assert s == s[..last] + [s[last]];
    }
  }

  // ----- Flags

  /** The values Python counts as false; every other value is true. */
  const FALSY: set<Json> :=
    {Null, Num(0), Real(Scaled(0, 0)), Flag(false), Text(""), List([]), Object(map[])}

  lemma TruthyIff(value: Json)
    ensures Truthy(value) <==> value !in FALSY
  {
  }

  /** A request's payload travels after its header line exactly when its inline field is there and true. */
  lemma InlineIff(header: Header)
    ensures IsInline(header) <==> "inline" in header && header["inline"] !in FALSY
  {
    if "inline" in header {
      TruthyIff(header["inline"]);
    }
  }

  // ----- Lengths

  /** The blanks int() ignores around a number: tab to carriage return, and 28 to 32. */
  lemma BlankIff(c: char)
    ensures IsBlank(c) <==> c as int in {9, 10, 11, 12, 13, 28, 29, 30, 31, 32}
  {
  }

  /** Blanks around a number do not matter. */
  lemma PaddedLength(before: string, t: string, after: string)
    requires forall c :: c in before || c in after ==> IsBlank(c)
    ensures IntOf(Text(before + t + after)) == IntOf(Text(t))
  {
    hide Digits;
    LeftPadding(before, t + after);
    assert before + t + after == before + (t + after);
    TrimBoth(t, after);
  }

  lemma {:induction false} LeftPadding(before: string, t: string)
    requires forall c :: c in before ==> IsBlank(c)
    ensures TrimLeft(before + t) == TrimLeft(t)
  {
    if before == "" {
      assert before + t == t;
    } else {
      assert (before + t)[1..] == before[1..] + t;
      LeftPadding(before[1..], t);
    }
  }

  lemma {:induction false} RightPadding(t: string, after: string)
    requires forall c :: c in after ==> IsBlank(c)
    ensures TrimRight(t + after) == TrimRight(t)
  {
    if after == "" {
      assert t + after == t;
    } else {
      var last := |after| - 1;
      assert (t + after)[..|t + after| - 1] == t + after[..last];
      RightPadding(t, after[..last]);
    }
  }

  lemma {:induction false} TrimBoth(t: string, after: string)
    requires forall c :: c in after ==> IsBlank(c)
    ensures TrimRight(TrimLeft(t + after)) == TrimRight(TrimLeft(t))
  {
    if t == "" {
      assert t + after == after + "";
      LeftPadding(after, "");
    } else if IsBlank(t[0]) {
      assert (t + after)[1..] == t[1..] + after;
      TrimBoth(t[1..], after);
    } else {
      RightPadding(t, after);
    }
  }

  lemma {:induction false} PowersOfTen(a: nat, b: nat)
    ensures Pow10(1) == 10 && Pow10(a + b) == Pow10(a) * Pow10(b)
    decreases a
  {
    assert Pow10(1) == 10 * Pow10(0);
    if a > 0 {
      PowersOfTen(a - 1, b);
      assert Pow10(a + b) == 10 * Pow10(a - 1 + b);
    }
  }

  /** Each further decimal place multiplies a whole number by ten. */
  lemma WholeNumbers(d: Fraction)
    requires d.exponent >= 0 && d.mantissa % 10 != 0
    ensures Truncated(Scaled(d.mantissa, 0)) == d.mantissa
    ensures Truncated(Scaled(d.mantissa, d.exponent + 1)) == 10 * Truncated(d)
  {
    assert Pow10(d.exponent + 1) == 10 * Pow10(d.exponent);
  }

  /** Flags count as 0 and 1, and null, lists and objects have no integer value. */
  lemma OtherLengths(b: bool, items: seq<Json>, fields: map<string, Json>)
    ensures IntOf(Flag(true)) == Some(1) && IntOf(Flag(false)) == Some(0)
    ensures IntOf(Null) == IntOf(List(items)) == IntOf(Object(fields)) == None
  {
  }

  /** A slice from the front: as many bytes as asked for if there are as many, and for a negative number
      all but that many from the end. */
  lemma SliceSize(buffer: seq<byte>, n: int)
    ensures Slice(buffer, n) <= buffer
    ensures n >= 0 ==> |Slice(buffer, n)| == if n < |buffer| then n else |buffer|
    ensures n < 0 ==> |Slice(buffer, n)| == if |buffer| + n > 0 then |buffer| + n else 0
  {
  }
}
