/** That decoding can undo encoding at all: an injective encoding of the CBOR values of the
    model. It is not CBOR; it shows that what is proved of such pairs is not vacuous. */
module CborWitness {
  import opened Bytes
  import opened CtapRequests
  import opened CtapReplies

  function Unary(n: nat): Buffer { if n == 0 then [0] else [1] + Unary(n - 1) }

  function Natural(n: int): nat { if n >= 0 then 2 * n else -2 * n - 1 }

  function Letters(s: string): Buffer { if s == [] then [] else Unary(s[0] as int) + Letters(s[1..]) }

  function Write(v: Value): Buffer
    decreases v
  {
    match v
    case Integer(n) => [0] + Unary(Natural(n))
    case Text(s) => [1] + Unary(|s|) + Letters(s)
    case ByteString(b) => [2] + Unary(|b|) + b
    case Bool(b) => [3, if b then 1 else 0]
    case Array(items) => [4] + Unary(|items|) + WriteAll(items)
    case Map(entries) => [5] + Unary(|entries|) + WritePairs(entries)
    case Other => [6]
  }

  function WriteAll(items: seq<Value>): Buffer
    decreases items
  {
    if items == [] then [] else Write(items[0]) + WriteAll(items[1..])
  }

  function WritePairs(entries: seq<(Value, Value)>): Buffer
    decreases entries
  {
    if entries == [] then [] else WritePair(entries[0]) + WritePairs(entries[1..])
  }

  function WritePair(e: (Value, Value)): Buffer
    decreases e
  {
    Write(e.0) + Write(e.1)
  }

  // ---- No encoding is the beginning of another ---------------------------------------------------------

  lemma {:induction false} UnaryFree(n: nat, m: nat, r: Buffer, s: Buffer)
    requires Unary(n) + r == Unary(m) + s
    ensures n == m && r == s
  {
    assert (Unary(n) + r)[0] == (Unary(m) + s)[0];
    assert (Unary(n) + r)[1..] == (Unary(m) + s)[1..];
    if n == 0 {
      assert (Unary(n) + r)[1..] == r && m == 0 && (Unary(m) + s)[1..] == s;
    } else {
      assert (Unary(n) + r)[1..] == Unary(n - 1) + r && (Unary(m) + s)[1..] == Unary(m - 1) + s;
      UnaryFree(n - 1, m - 1, r, s);
    }
  }

  lemma {:induction false} LettersFree(a: string, b: string, r: Buffer, s: Buffer)
    requires |a| == |b| && Letters(a) + r == Letters(b) + s
    ensures a == b && r == s
  {
    if a == [] {
      assert [] + r == r && [] + s == s;
    } else {
      ConcatAssociative(Unary(a[0] as int), Letters(a[1..]), r);
      ConcatAssociative(Unary(b[0] as int), Letters(b[1..]), s);
      UnaryFree(a[0] as int, b[0] as int, Letters(a[1..]) + r, Letters(b[1..]) + s);
      LettersFree(a[1..], b[1..], r, s);
      assert a == [a[0]] + a[1..] && b == [b[0]] + b[1..];
    }
  }

  /** A tagged, counted encoding: the tag and the count can be read off. */
  lemma CountedFree(tag: byte, n: nat, x: Buffer, tag': byte, m: nat, y: Buffer, r: Buffer, s: Buffer)
    requires [tag] + Unary(n) + x + r == [tag'] + Unary(m) + y + s
    ensures tag == tag' && n == m && x + r == y + s
  {
    assert [tag] + Unary(n) + x + r == [tag] + (Unary(n) + (x + r));
    assert [tag'] + Unary(m) + y + s == [tag'] + (Unary(m) + (y + s));
    assert ([tag] + (Unary(n) + (x + r)))[0] == tag && ([tag] + (Unary(n) + (x + r)))[1..] == Unary(n) + (x + r);
    assert ([tag'] + (Unary(m) + (y + s)))[0] == tag' && ([tag'] + (Unary(m) + (y + s)))[1..] == Unary(m) + (y + s);
    UnaryFree(n, m, x + r, y + s);
  }

  lemma SplitBytes(a: Buffer, b: Buffer, r: Buffer, s: Buffer)
    requires |a| == |b| && a + r == b + s
    ensures a == b && r == s
  {
    assert (a + r)[..|a|] == a && (b + s)[..|b|] == b && (a + r)[|a|..] == r && (b + s)[|b|..] == s;
  }

  function Tag(v: Value): byte {
    match v
    case Integer(_) => 0
    case Text(_) => 1
    case ByteString(_) => 2
    case Bool(_) => 3
    case Array(_) => 4
    case Map(_) => 5
    case Other => 6
  }

  lemma TagFirst(v: Value, r: Buffer)
    ensures Write(v) + r != [] && (Write(v) + r)[0] == Tag(v)
  {
  }

  lemma {:induction false} WriteFree(v: Value, w: Value, r: Buffer, s: Buffer)
    requires Write(v) + r == Write(w) + s
    ensures v == w && r == s
    decreases v
  {
    TagFirst(v, r);
    TagFirst(w, s);
    match v
    case Integer(n) =>
      assert Write(v) + r == [0] + Unary(Natural(n)) + [] + r && Write(w) + s == [0] + Unary(Natural(w.n)) + [] + s;
      CountedFree(0, Natural(n), [], 0, Natural(w.n), [], r, s);
      assert [] + r == r && [] + s == s;
    case Text(a) =>
      CountedFree(1, |a|, Letters(a), 1, |w.text|, Letters(w.text), r, s);
      LettersFree(a, w.text, r, s);
    case ByteString(a) =>
      CountedFree(2, |a|, a, 2, |w.bytes|, w.bytes, r, s);
      SplitBytes(a, w.bytes, r, s);
    case Bool(a) => SplitBytes(Write(v), Write(w), r, s);
    case Array(a) =>
      CountedFree(4, |a|, WriteAll(a), 4, |w.items|, WriteAll(w.items), r, s);
      WriteAllFree(a, w.items, r, s);
    case Map(a) =>
      CountedFree(5, |a|, WritePairs(a), 5, |w.entries|, WritePairs(w.entries), r, s);
      WritePairsFree(a, w.entries, r, s);
    case Other => SplitBytes(Write(v), Write(w), r, s);
  }

  lemma {:induction false} WriteAllFree(a: seq<Value>, b: seq<Value>, r: Buffer, s: Buffer)
    requires |a| == |b| && WriteAll(a) + r == WriteAll(b) + s
    ensures a == b && r == s
    decreases a
  {
    if a == [] {
      assert [] + r == r && [] + s == s;
    } else {
      ConcatAssociative(Write(a[0]), WriteAll(a[1..]), r);
      ConcatAssociative(Write(b[0]), WriteAll(b[1..]), s);
      WriteFree(a[0], b[0], WriteAll(a[1..]) + r, WriteAll(b[1..]) + s);
      WriteAllFree(a[1..], b[1..], r, s);
      assert a == [a[0]] + a[1..] && b == [b[0]] + b[1..];
    }
  }

  lemma {:induction false} WritePairsFree(a: seq<(Value, Value)>, b: seq<(Value, Value)>, r: Buffer, s: Buffer)
    requires |a| == |b| && WritePairs(a) + r == WritePairs(b) + s
    ensures a == b && r == s
    decreases a
  {
    if a == [] {
      assert [] + r == r && [] + s == s;
    } else {
      ConcatAssociative(WritePair(a[0]), WritePairs(a[1..]), r);
      ConcatAssociative(WritePair(b[0]), WritePairs(b[1..]), s);
      WritePairFree(a[0], b[0], WritePairs(a[1..]) + r, WritePairs(b[1..]) + s);
      WritePairsFree(a[1..], b[1..], r, s);
      assert a == [a[0]] + a[1..] && b == [b[0]] + b[1..];
    }
  }

  lemma {:induction false} WritePairFree(a: (Value, Value), b: (Value, Value), r: Buffer, s: Buffer)
    requires WritePair(a) + r == WritePair(b) + s
    ensures a == b && r == s
    decreases a
  {
    ConcatAssociative(Write(a.0), Write(a.1), r);
    ConcatAssociative(Write(b.0), Write(b.1), s);
    WriteFree(a.0, b.0, Write(a.1) + r, Write(b.1) + s);
    WriteFree(a.1, b.1, r, s);
  }

  /** A decoder that undoes this encoding: the value written as `b`, if there is one. */
  ghost function Read(b: Buffer): (v: Option<Value>)
    ensures v.Some? ==> Write(v.value) == b
    ensures v.None? ==> forall w: Value :: Write(w) != b
  {
    if w: Value :| Write(w) == b then Some(w) else None
  }

  lemma SomePairInverts()
    ensures Inverts(b => Read(b), v => Write(v))
  {
    forall v: Value
      ensures Read(Write(v)) == Some(v)
    {
      WriteFree(Read(Write(v)).value, v, [], []);
    }
  }
}
