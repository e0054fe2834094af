/** The protocol's assumption on JSON can be met: there is a codec that prints every header on one line
    without white space at its ends and parses it back. */
module WireCodec {
  import opened Wrappers
  import opened Wire

  // ----- Words: an injective code of JSON values by lists of numbers

  type Word = seq<nat>

  /** The first word behind its length, then the second. */
  function Pair(a: Word, b: Word): Word {
    [|a|] + a + b
  }

  lemma PairInjective(a: Word, b: Word, a': Word, b': Word)
    requires Pair(a, b) == Pair(a', b')
    ensures a == a' && b == b'
  {
    assert Pair(a, b)[0] == |a| && Pair(a', b')[0] == |a'|;
    assert Pair(a, b)[1..1 + |a|] == a && Pair(a, b)[1 + |a|..] == b;
    assert Pair(a', b')[1..1 + |a'|] == a' && Pair(a', b')[1 + |a'|..] == b';
  }

  function ListWord(words: seq<Word>): Word {
    if words == [] then [] else Pair(words[0], ListWord(words[1..]))
  }

  lemma {:induction false} ListInjective(s: seq<Word>, t: seq<Word>)
    requires ListWord(s) == ListWord(t)
    ensures s == t
  {
    if s != [] && t != [] {
      PairInjective(s[0], ListWord(s[1..]), t[0], ListWord(t[1..]));
      ListInjective(s[1..], t[1..]);
      assert s == [s[0]] + s[1..] && t == [t[0]] + t[1..];
    }
  }

  function TextWord(text: string): Word {
    seq(|text|, i requires 0 <= i < |text| => text[i] as int)
  }

  lemma TextInjective(s: string, t: string)
    requires TextWord(s) == TextWord(t)
    ensures s == t
  {
    forall i | 0 <= i < |s| ensures s[i] == t[i] {
      assert TextWord(s)[i] == TextWord(t)[i];
    }
  }

  function IntWord(n: int): Word {
    if n >= 0 then [n] else [-n, 0]
  }

  /** Some key of a table that has one. */
  ghost function KeyOf(table: map<string, Word>): (key: string)
    requires table != map[]
    ensures key in table
  {
    assert table.Keys != {} by { assert table.Keys == {} ==> table == map[]; }
    var key :| key in table;
    key
  }

  ghost function TableWord(table: map<string, Word>): Word
    decreases |table|
  {
    if table == map[] then []
    else
      var key := KeyOf(table);
      Pair(TextWord(key), Pair(table[key], TableWord(table - {key})))
  }

  lemma {:induction false} TableInjective(s: map<string, Word>, t: map<string, Word>)
    requires TableWord(s) == TableWord(t)
    ensures s == t
    decreases |s|
  {
    if s != map[] && t != map[] {
      var k, l := KeyOf(s), KeyOf(t);
      var restS, restT := TableWord(s - {k}), TableWord(t - {l});
      PairInjective(TextWord(k), Pair(s[k], restS), TextWord(l), Pair(t[l], restT));
      TextInjective(k, l);
      PairInjective(s[k], restS, t[l], restT);
      TableInjective(s - {k}, t - {l});
      assert s == (s - {k})[k := s[k]] && t == (t - {l})[l := t[l]];
    }
  }

  ghost function JsonWord(value: Json): (word: Word)
    ensures word != []
  {
    match value
    case Null => [0]
    case Num(n) => [1] + IntWord(n)
    case Real(d) => [2] + Pair(IntWord(d.mantissa), IntWord(d.exponent))
    case Flag(b) => [3, if b then 1 else 0]
    case Text(t) => [4] + TextWord(t)
    case List(items) => [5] + ListWord(ItemWords(items))
    case Object(fields) => [6] + TableWord(map k | k in fields :: JsonWord(fields[k]))
  }

  ghost function ItemWords(items: seq<Json>): seq<Word> {
    seq(|items|, i requires 0 <= i < |items| => JsonWord(items[i]))
  }

  ghost function FieldWords(fields: map<string, Json>): map<string, Word> {
    map k | k in fields :: JsonWord(fields[k])
  }

  lemma {:induction false} JsonInjective(a: Json, b: Json)
    requires JsonWord(a) == JsonWord(b)
    ensures a == b
  {
    var tail, tail' := JsonWord(a)[1..], JsonWord(b)[1..];
    assert JsonWord(a)[0] == JsonWord(b)[0];
    match a
    case Null =>
    case Num(n) =>
      assert tail == IntWord(n) && tail' == IntWord(b.number);
    case Real(d) =>
      var e := b.value;
      assert tail == Pair(IntWord(d.mantissa), IntWord(d.exponent));
      assert tail' == Pair(IntWord(e.mantissa), IntWord(e.exponent));
      PairInjective(IntWord(d.mantissa), IntWord(d.exponent), IntWord(e.mantissa), IntWord(e.exponent));
    case Flag(_) =>
      assert JsonWord(a)[1] == JsonWord(b)[1];
    case Text(t) =>
      assert tail == TextWord(t) && tail' == TextWord(b.text);
      TextInjective(t, b.text);
    case List(items) =>
      assert tail == ListWord(ItemWords(items)) && tail' == ListWord(ItemWords(b.items));
      ListInjective(ItemWords(items), ItemWords(b.items));
      forall i | 0 <= i < |items| ensures items[i] == b.items[i] {
        assert ItemWords(items)[i] == ItemWords(b.items)[i];
        JsonInjective(items[i], b.items[i]);
      }
      assert items == b.items;
    case Object(fields) =>
      assert tail == TableWord(FieldWords(fields)) && tail' == TableWord(FieldWords(b.fields));
      TableInjective(FieldWords(fields), FieldWords(b.fields));
      assert fields.Keys == FieldWords(fields).Keys == b.fields.Keys;
      forall k | k in fields ensures fields[k] == b.fields[k] {
        assert FieldWords(fields)[k] == FieldWords(b.fields)[k];
        JsonInjective(fields[k], b.fields[k]);
      }
      assert fields == b.fields;
  }

  // ----- Lines: every number as a row of ones behind which a zero stands

  const ONE: byte := 49
  const ZERO: byte := 48

  function Line(word: Word): (line: seq<byte>)
    ensures word != [] ==> line != []
    ensures forall i :: 0 <= i < |line| ==> line[i] == ONE || line[i] == ZERO
  {
    if word == [] then [] else seq(word[0], _ => ONE) + [ZERO] + Line(word[1..])
  }

  lemma OnesEnd(n: nat, rest: seq<byte>, m: nat, rest': seq<byte>)
    requires seq(n, _ => ONE) + [ZERO] + rest == seq(m, _ => ONE) + [ZERO] + rest'
    ensures n == m && rest == rest'
  {
    var s, t := seq(n, _ => ONE) + [ZERO] + rest, seq(m, _ => ONE) + [ZERO] + rest';
    assert s[n] == ZERO && t[m] == ZERO;
    assert forall i :: 0 <= i < n ==> s[i] == ONE;
    assert forall i :: 0 <= i < m ==> t[i] == ONE;
    assert s[n + 1..] == rest && t[m + 1..] == rest';
  }

  lemma {:induction false} LineInjective(a: Word, b: Word)
    requires Line(a) == Line(b)
    ensures a == b
  {
    if a != [] && b != [] {
      OnesEnd(a[0], Line(a[1..]), b[0], Line(b[1..]));
      LineInjective(a[1..], b[1..]);
      assert a == [a[0]] + a[1..] && b == [b[0]] + b[1..];
    }
  }

  // ----- The codec

  ghost function Print(h: Header): seq<byte> {
    Line(JsonWord(Object(h)))
  }

  lemma PrintInjective(a: Header, b: Header)
    requires Print(a) == Print(b)
    ensures a == b
  {
    LineInjective(JsonWord(Object(a)), JsonWord(Object(b)));
    JsonInjective(Object(a), Object(b));
  }

  /** The header a line prints, if there is one. */
  ghost function Parse(line: seq<byte>): Option<Header> {
    if h: Header :| Print(h) == line then Some(h) else None
  }

  /** The assumption is not empty: some codec satisfies it. */
  lemma SomeCodecIsValid() returns (codec: Codec)
    ensures codec.Valid()
  {
    hide Print;
    codec := Codec(h => Print(h), line => Parse(line));
    forall h: Header ensures
        var line := codec.encode(h);
        && NEWLINE !in line && line != [] && !IsSpace(line[0]) && !IsSpace(line[|line| - 1])
        && codec.decode(line) == Some(h)
    {
      PrintedPlain(h);
      ParsePrints(h);
    }
  }

  lemma PrintedPlain(h: Header)
    ensures var line := Print(h);
            NEWLINE !in line && line != [] && !IsSpace(line[0]) && !IsSpace(line[|line| - 1])
  {
  }

  lemma ParsePrints(h: Header)
    ensures Parse(Print(h)) == Some(h)
  {
    hide Print;
    var g: Header :| Print(g) == Print(h) && Parse(Print(h)) == Some(g);
    PrintInjective(g, h);
  }
}
