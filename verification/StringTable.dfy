/**
 * The argv/envp style table of `StringTableSpec` (angr/angr/tablespecs.py):
 * a table of pointers, then the strings they point at, then zero fill up to
 * the end address. Memory is a map from addresses to bytes; words are written
 * in either byte order.
 */
module StringTable {
  import opened Arithmetic

  type Byte = x: int | 0 <= x < 256

  /** The byte order of a machine word in memory. */
  datatype Endness = Little | Big

  /** The number of values of a word of `w` bytes. */
  function Modulus(w: nat): (r: nat)
    ensures r > 0
  {
    if w == 0 then 1 else 256 * Modulus(w - 1)
  }

  /** An entry of the table. `Text` holds its terminating NUL. */
  datatype Item = Text(data: seq<Byte>) | Pointer(value: int)

  type Cells = map<int, Byte>

  /** The memory after writing `s` at `a`. */
  function Write(m: Cells, a: int, s: seq<Byte>): Cells
    decreases |s|
  {
    if s == [] then m
    else
      var n := |s| - 1;
      Write(m, a, s[..n])[a + n := s[n]]
  }

  /** All the addresses of [a, a + n) hold something. */
  predicate Mapped(m: Cells, a: int, n: nat) {
    forall k :: a <= k < a + n ==> k in m
  }

  function Read(m: Cells, a: int, n: nat): seq<Byte>
    requires Mapped(m, a, n)
  {
    if n == 0 then [] else Read(m, a, n - 1) + [m[a + n - 1]]
  }

  /** The bytes of `k` words, as the table is walked word by word. */
  function Span(k: nat, w: nat): nat {
    if k == 0 then 0 else Span(k - 1, w) + w
  }

  lemma {:induction false} SpanIsProduct(k: nat, w: nat)
    ensures Span(k, w) == k * w
  {
    if k > 0 {
      SpanIsProduct(k - 1, w);
      assert (k - 1) * w + w == k * w;
    }
  }

  lemma {:induction false} SpanMonotone(j: nat, k: nat, w: nat)
    requires j <= k
    ensures Span(j, w) <= Span(k, w)
  {
    if j < k {
      SpanMonotone(j, k - 1, w);
    }
  }

  // ---------------------------------------------------------------- words

  /** `v` without its `i` lowest bytes. */
  function Shift(v: int, i: nat): int {
    if i == 0 then v else Shift(v, i - 1) / 256
  }

  /** Byte `i` of a literal, the lowest first. */
  function Digit(v: int, i: nat): Byte {
    Shift(v, i) % 256
  }

  /** Which byte in memory order holds digit `i`; its own inverse. */
  function Place(i: nat, w: nat, e: Endness): (p: nat)
    requires i < w
    ensures p < w
  {
    if e.Little? then i else w - 1 - i
  }

  /** A word of `w` bytes as memory holds it. */
  function WordBytes(v: int, w: nat, e: Endness): (s: seq<Byte>)
    ensures |s| == w
  {
    seq(w, i requires 0 <= i < w => Digit(v, Place(i, w, e)))
  }

  /** The number that digits `i` and up of a word in memory stand for. */
  function ValueFrom(s: seq<Byte>, e: Endness, i: nat): nat
    requires i <= |s|
    decreases |s| - i
  {
    if i == |s| then 0 else s[Place(i, |s|, e)] + 256 * ValueFrom(s, e, i + 1)
  }

  function WordValue(s: seq<Byte>, e: Endness): nat {
    ValueFrom(s, e, 0)
  }

  /** What a word keeps of a literal, byte by byte. */
  function Truncate(v: int, w: nat): nat
    decreases w
  {
    if w == 0 then 0 else v % 256 + 256 * Truncate(v / 256, w - 1)
  }

  lemma {:induction false} TruncateIsModulo(v: int, w: nat)
    ensures Truncate(v, w) == v % Modulus(w)
    decreases w
  {
    if w > 0 {
      TruncateIsModulo(v / 256, w - 1);
      ModSplit(v, Modulus(w - 1));
    }
  }

  lemma {:induction false} DigitsRoundTrip(v: int, w: nat, e: Endness, i: nat)
    requires i <= w
    ensures ValueFrom(WordBytes(v, w, e), e, i) == Truncate(Shift(v, i), w - i)
    decreases w - i
  {
    if i < w {
      DigitsRoundTrip(v, w, e, i + 1);
      assert Place(Place(i, w, e), w, e) == i;
    }
  }

  lemma ModSplit(v: int, m: nat)
    requires m > 0
    ensures v % (256 * m) == v % 256 + 256 * (v / 256 % m)
  {
    var b, h := v % 256, v / 256;
    var q, r := h / m, h % m;
    assert h == q * m + r;
    assert v == q * (256 * m) + (256 * r + b);
    ModUnique(v, 256 * m, q, 256 * r + b);
  }

  /** A word written in either byte order is read back. */
  lemma WordRoundTrip(v: int, w: nat, e: Endness)
    ensures WordValue(WordBytes(v, w, e), e) == Truncate(v, w)
  {
    DigitsRoundTrip(v, w, e, 0);
  }

  lemma Regrouped(v: int, m: nat, q: int, s: nat, r: nat)
    requires m > 0 && s < 256 && r < m && v == (q * 256 + s) * m + r
    ensures v == q * (256 * m) + (s * m + r) && s * m + r < 256 * m
  {
    Distribute(q * 256, s, m);
    Associate(q, m);
    AtMost(s, m);
  }

  lemma Distribute(a: int, b: int, m: int)
    ensures (a + b) * m == a * m + b * m
  {
  }

  lemma Associate(q: int, m: int)
    ensures q * 256 * m == q * (256 * m)
  {
  }

  lemma AtMost(s: nat, m: nat)
    requires s < 256
    ensures 0 <= s * m <= 255 * m
  {
  }

  lemma DivideTwice(v: int, m: nat)
    requires m > 0
    ensures v / m / 256 == v / (256 * m)
  {
    var q, s, r := v / m / 256, v / m % 256, v % m;
    assert v / m == q * 256 + s;
    Regrouped(v, m, q, s, r);
    QuotientUnique(v, 256 * m, q, s * m + r);
  }

  lemma {:induction false} ShiftDivides(v: int, i: nat)
    ensures Shift(v, i) == v / Modulus(i)
  {
    if i > 0 {
      ShiftDivides(v, i - 1);
      DivideTwice(v, Modulus(i - 1));
    }
  }

  /** The bytes of a word: in little-endian order byte `i` is the one that counts 256 to the `i`, in
      big-endian order the last one counts least. */
  lemma WordDigits(v: int, w: nat, i: nat)
    requires i < w
    ensures WordBytes(v, w, Little)[i] == v / Modulus(i) % 256 && WordBytes(v, w, Big)[w - 1 - i] == v / Modulus(i) % 256
  {
    ShiftDivides(v, i);
  }

  lemma SmallUntouched(v: nat, w: nat)
    requires v < Modulus(w)
    ensures Truncate(v, w) == v
  {
    TruncateIsModulo(v, w);
    ModUnique(v, Modulus(w), 0, v);
  }

  // ---------------------------------------------------------------- image

  function TextOf(item: Item): seq<Byte> {
    if item.Text? then item.data else []
  }

  /** What the table holds for an entry whose string, if any, goes to `at`. */
  function PointerFor(item: Item, at: nat): int {
    if item.Text? then at else item.value
  }

  /** The bytes the strings of the first `i` entries take. */
  function TextLen(items: seq<Item>, i: nat): nat
    requires i <= |items|
  {
    if i == 0 then 0 else TextLen(items, i - 1) + |TextOf(items[i - 1])|
  }

  /** The strings of the first `i` entries, one after another. */
  function Texts(items: seq<Item>, i: nat): (s: seq<Byte>)
    requires i <= |items|
    ensures |s| == TextLen(items, i)
  {
    if i == 0 then [] else Texts(items, i - 1) + TextOf(items[i - 1])
  }

  /** What the table holds for entry `k` when the strings start at `base`. */
  function Entry(items: seq<Item>, k: nat, base: nat): int
    requires k < |items|
  {
    PointerFor(items[k], base + TextLen(items, k))
  }

  /** The first `i` words of the pointer table. */
  function Table(items: seq<Item>, i: nat, base: nat, w: nat, e: Endness): (s: seq<Byte>)
    requires i <= |items|
    ensures |s| == Span(i, w)
  {
    if i == 0 then []
    else Table(items, i - 1, base, w, e) + WordBytes(Entry(items, i - 1, base), w, e)
  }

  function Zeros(n: nat): (s: seq<Byte>)
    ensures |s| == n
  {
    seq(n, _ => 0)
  }

  function TableSize(items: seq<Item>, w: nat): nat {
    TextLen(items, |items|) + Span(|items|, w)
  }

  /** Everything from the start address on: pointers, strings, zero fill. */
  function Image(items: seq<Item>, start: nat, fill: nat, w: nat, e: Endness): (s: seq<Byte>)
    ensures |s| == TableSize(items, w) + fill
  {
    Table(items, |items|, start + Span(|items|, w), w, e) + Texts(items, |items|) + Zeros(fill)
  }

  // ---------------------------------------------------------------- writes

  /** A write changes [a, a + |s|) and nothing else. */
  lemma {:induction false} WriteAt(m: Cells, a: int, s: seq<Byte>, k: int)
    ensures a <= k < a + |s| ==> k in Write(m, a, s) && Write(m, a, s)[k] == s[k - a]
    ensures !(a <= k < a + |s|) ==> (k in Write(m, a, s) <==> k in m)
    ensures !(a <= k < a + |s|) && k in m ==> Write(m, a, s)[k] == m[k]
    decreases |s|
  {
    if s != [] {
      WriteAt(m, a, s[..|s| - 1], k);
    }
  }

  lemma {:induction false} WriteAppend(m: Cells, a: int, s: seq<Byte>, t: seq<Byte>)
    ensures Write(Write(m, a, s), a + |s|, t) == Write(m, a, s + t)
    decreases |t|
  {
    if t == [] {
      assert s + t == s;
    } else {
      var n := |t| - 1;
      WriteAppend(m, a, s, t[..n]);
      assert (s + t)[..|s| + n] == s + t[..n];
    }
  }

  /** Writes to different addresses may be exchanged. */
  lemma WriteCommute(m: Cells, a: int, s: seq<Byte>, b: int, t: seq<Byte>)
    requires a + |s| <= b
    ensures Write(Write(m, a, s), b, t) == Write(Write(m, b, t), a, s)
  {
    var one, other := Write(Write(m, a, s), b, t), Write(Write(m, b, t), a, s);
    forall k
      ensures k in one <==> k in other
      ensures k in one ==> one[k] == other[k]
    {
      WriteAt(Write(m, a, s), b, t, k);
      WriteAt(m, a, s, k);
      WriteAt(Write(m, b, t), a, s, k);
      WriteAt(m, b, t, k);
    }
    assert one == other;
  }

  /** Extending the low block below an already written high one. */
  lemma WriteBelow(m: Cells, a: int, s: seq<Byte>, more: seq<Byte>, b: int, t: seq<Byte>)
    requires a + |s| + |more| <= b
    ensures Write(Write(Write(m, a, s), b, t), a + |s|, more) == Write(Write(m, a, s + more), b, t)
  {
    WriteCommute(Write(m, a, s), a + |s|, more, b, t);
    WriteAppend(m, a, s, more);
  }

  lemma WriteMaps(m: Cells, a: int, s: seq<Byte>, at: int, n: nat)
    requires a <= at && at + n <= a + |s|
    ensures Mapped(Write(m, a, s), at, n)
  {
    forall k | at <= k < at + n
      ensures k in Write(m, a, s)
    {
      WriteAt(m, a, s, k);
    }
  }

  /** `part` stands at position `i` of `s`. */
  predicate HasPart(s: seq<Byte>, i: nat, part: seq<Byte>) {
    i + |part| <= |s| && s[i..i + |part|] == part
  }

  /** Reading `d` where it was written as a part of `s`. */
  lemma {:induction false} ReadPart(m: Cells, a: int, s: seq<Byte>, i: nat, d: seq<Byte>, at: int)
    requires at == a + i && HasPart(s, i, d)
    ensures Mapped(Write(m, a, s), at, |d|)
    ensures Read(Write(m, a, s), at, |d|) == d
    decreases |d|
  {
    WriteMaps(m, a, s, at, |d|);
    if d != [] {
      var n := |d| - 1;
      assert s[i..i + n] == d[..n];
      ReadPart(m, a, s, i, d[..n], at);
      WriteAt(m, a, s, at + n);
      assert d == d[..n] + [d[n]];
    }
  }

  // ---------------------------------------------------------------- meaning

  lemma CutFront(s: seq<Byte>, t: seq<Byte>, i: nat, j: nat)
    requires i <= j <= |s|
    ensures (s + t)[i..j] == s[i..j]
  {
  }

  lemma CutBack(s: seq<Byte>, t: seq<Byte>, i: nat, j: nat)
    requires i <= j <= |t|
    ensures (s + t)[|s| + i..|s| + j] == t[i..j]
  {
  }

  lemma PartBefore(s: seq<Byte>, t: seq<Byte>, i: nat, part: seq<Byte>)
    requires HasPart(s, i, part)
    ensures HasPart(s + t, i, part)
  {
    CutFront(s, t, i, i + |part|);
  }

  lemma PartLast(s: seq<Byte>, t: seq<Byte>)
    ensures HasPart(s + t, |s|, t)
  {
  }

  lemma {:induction false} TableAt(items: seq<Item>, i: nat, k: nat, base: nat, w: nat, e: Endness)
    requires k < i <= |items|
    ensures HasPart(Table(items, i, base, w, e), Span(k, w), WordBytes(Entry(items, k, base), w, e))
    decreases i
  {
    var front, word := Table(items, i - 1, base, w, e), WordBytes(Entry(items, i - 1, base), w, e);
    if k < i - 1 {
      TableAt(items, i - 1, k, base, w, e);
      PartBefore(front, word, Span(k, w), WordBytes(Entry(items, k, base), w, e));
    } else {
      PartLast(front, word);
    }
  }

  lemma {:induction false} TextsAt(items: seq<Item>, i: nat, k: nat)
    requires k < i <= |items|
    ensures TextLen(items, k) + |TextOf(items[k])| <= TextLen(items, i)
    ensures HasPart(Texts(items, i), TextLen(items, k), TextOf(items[k]))
    decreases i
  {
    var front, last := Texts(items, i - 1), TextOf(items[i - 1]);
    if k < i - 1 {
      TextsAt(items, i - 1, k);
      PartBefore(front, last, TextLen(items, k), TextOf(items[k]));
    } else {
      PartLast(front, last);
    }
  }

  /** The word at entry `k` of the table in `m`. */
  function PointerAt(m: Cells, start: nat, k: nat, w: nat, e: Endness): nat
    requires Mapped(m, start + Span(k, w), w)
  {
    WordValue(Read(m, start + Span(k, w), w), e)
  }

  /** Entry `k` reads as its literal pointer, or as the address, inside the
      string area, of a copy of its string. */
  ghost predicate Followed(m: Cells, items: seq<Item>, k: nat, start: nat, w: nat, e: Endness)
    requires k < |items|
  {
    && Mapped(m, start + Span(k, w), w)
    && var at := PointerAt(m, start, k, w, e);
       match items[k] {
         case Pointer(v) => at == Truncate(v, w)
         case Text(data) =>
           && start + Span(|items|, w) <= at
           && at + |data| <= start + TableSize(items, w)
           && Mapped(m, at, |data|)
           && Read(m, at, |data|) == data
       }
  }

  lemma PartInside(s: seq<Byte>, t: seq<Byte>, u: seq<Byte>, i: nat, part: seq<Byte>)
    requires HasPart(t, i, part)
    ensures HasPart(s + t + u, |s| + i, part)
  {
    CutBack(s, t, i, i + |part|);
    PartBefore(s + t, u, |s| + i, part);
  }

  lemma ImageWord(items: seq<Item>, k: nat, start: nat, fill: nat, w: nat, e: Endness)
    requires k < |items|
    ensures HasPart(Image(items, start, fill, w, e), Span(k, w),
                    WordBytes(Entry(items, k, start + Span(|items|, w)), w, e))
  {
    var base := start + Span(|items|, w);
    var table, texts := Table(items, |items|, base, w, e), Texts(items, |items|);
    var word := WordBytes(Entry(items, k, base), w, e);
    TableAt(items, |items|, k, base, w, e);
    PartBefore(table, texts, Span(k, w), word);
    PartBefore(table + texts, Zeros(fill), Span(k, w), word);
  }

  lemma ImageText(items: seq<Item>, k: nat, start: nat, fill: nat, w: nat, e: Endness)
    requires k < |items|
    ensures HasPart(Image(items, start, fill, w, e), Span(|items|, w) + TextLen(items, k), TextOf(items[k]))
  {
    var table, texts := Table(items, |items|, start + Span(|items|, w), w, e), Texts(items, |items|);
    TextsAt(items, |items|, k);
    PartInside(table, texts, Zeros(fill), TextLen(items, k), TextOf(items[k]));
  }

  lemma PointerRead(m: Cells, items: seq<Item>, k: nat, start: nat, fill: nat, w: nat, e: Endness)
    requires k < |items|
    ensures Mapped(Write(m, start, Image(items, start, fill, w, e)), start + Span(k, w), w)
    ensures PointerAt(Write(m, start, Image(items, start, fill, w, e)), start, k, w, e)
            == Truncate(Entry(items, k, start + Span(|items|, w)), w)
  {
    var value := Entry(items, k, start + Span(|items|, w));
    ImageWord(items, k, start, fill, w, e);
    ReadPart(m, start, Image(items, start, fill, w, e), Span(k, w), WordBytes(value, w, e), start + Span(k, w));
    WordRoundTrip(value, w, e);
  }

  lemma TextRead(m: Cells, items: seq<Item>, k: nat, start: nat, fill: nat, w: nat, e: Endness, at: nat)
    requires k < |items| && at == start + Span(|items|, w) + TextLen(items, k)
    ensures Mapped(Write(m, start, Image(items, start, fill, w, e)), at, |TextOf(items[k])|)
    ensures Read(Write(m, start, Image(items, start, fill, w, e)), at, |TextOf(items[k])|) == TextOf(items[k])
  {
    ImageText(items, k, start, fill, w, e);
    ReadPart(m, start, Image(items, start, fill, w, e), at - start, TextOf(items[k]), at);
  }

  /** Following any entry of a dumped table. */
  lemma FollowPointer(m: Cells, items: seq<Item>, k: nat, start: nat, fill: nat, w: nat, e: Endness)
    requires k < |items|
    requires start + TableSize(items, w) < Modulus(w)
    ensures Followed(Write(m, start, Image(items, start, fill, w, e)), items, k, start, w, e)
  {
    PointerRead(m, items, k, start, fill, w, e);
    if items[k].Text? {
      var at := Entry(items, k, start + Span(|items|, w));
      TextRead(m, items, k, start, fill, w, e, at);
      TextsAt(items, |items|, k);
      SmallUntouched(at, w);
    }
  }

  lemma {:induction false} TextLenPrefix(items: seq<Item>, last: Item, i: nat)
    requires i <= |items|
    ensures TextLen(items + [last], i) == TextLen(items, i)
  {
    if i > 0 {
      TextLenPrefix(items, last, i - 1);
    }
  }

  // ---------------------------------------------------------------- the class

  /** The memory plugin of the state, as far as `dump` uses it. */
  class Memory {
    var cells: Cells

    constructor (m: Cells)
      ensures cells == m
    {
      cells := m;
    }

    method Store(a: int, s: seq<Byte>)
      modifies this
      ensures cells == Write(old(cells), a, s)
    {
      cells := Write(cells, a, s);
    }
  }

  /** The strings with their terminators, as entries. */
  function AsItems(strings: seq<seq<Byte>>): (items: seq<Item>)
    ensures |items| == |strings|
    ensures forall i :: 0 <= i < |strings| ==> items[i] == Text(strings[i] + [0])
  {
    seq(|strings|, i requires 0 <= i < |strings| => Text(strings[i] + [0]))
  }

  class StringTableSpec {
    var contents: seq<Item>
    var strLen: nat

    ghost predicate Valid()
      reads this
    {
      strLen == TextLen(contents, |contents|)
    }

    constructor ()
      ensures Valid() && contents == []
    {
      contents, strLen := [], 0;
    }

    method AddString(s: seq<Byte>)
      requires Valid()
      modifies this
      ensures Valid() && contents == old(contents) + [Text(s + [0])]
    {
      TextLenPrefix(contents, Text(s + [0]), |contents|);
      contents := contents + [Text(s + [0])];
      strLen := strLen + |s| + 1;
    }

    method AddPointer(p: int)
      requires Valid()
      modifies this
      ensures Valid() && contents == old(contents) + [Pointer(p)]
    {
      TextLenPrefix(contents, Pointer(p), |contents|);
      contents := contents + [Pointer(p)];
    }

    method AddNull()
      requires Valid()
      modifies this
      ensures Valid() && contents == old(contents) + [Pointer(0)]
    {
      AddPointer(0);
    }

    method AppendArgs(args: seq<seq<Byte>>, addNull: bool)
      requires Valid()
      modifies this
      ensures Valid()
      ensures contents == old(contents) + AsItems(args) + if addNull then [Pointer(0)] else []
    {
      for i := 0 to |args|
        invariant Valid()
        invariant contents == old(contents) + AsItems(args)[..i]
      {
        assert AsItems(args)[..i + 1] == AsItems(args)[..i] + [Text(args[i] + [0])];
        AddString(args[i]);
      }
      assert AsItems(args)[..|args|] == AsItems(args);
      if addNull {
        AddNull();
      }
    }

    /** One entry of the table: its word at `ptr`, its string at `str`. What
        is written so far below `base` is `table`, and from `base` on `texts`. */
    method DumpItem(memory: Memory, item: Item, ptr: nat, str: nat, w: nat, e: Endness, ghost p: Progress)
      returns (nextPtr: nat, nextStr: nat)
      requires memory.cells == p.Memory() && ptr == p.start + |p.table| && str == p.base + |p.texts|
      requires ptr + w <= p.base
      modifies memory
      ensures nextPtr == ptr + w && nextStr == str + |TextOf(item)|
      ensures memory.cells == p.Extend(WordBytes(PointerFor(item, str), w, e), TextOf(item)).Memory()
    {
      ghost var word := WordBytes(PointerFor(item, str), w, e);
      p.ExtendBoth(word, TextOf(item));
      match item {
        case Text(data) =>
          memory.Store(ptr, WordBytes(str, w, e));
          memory.Store(str, data);
          nextStr := str + |data|;
        case Pointer(v) =>
          memory.Store(ptr, WordBytes(v, w, e));
          nextStr := str;
      }
      nextPtr := ptr + w;
    }

    /** The loop over the entries. */
    method DumpEntries(memory: Memory, start: nat, startStr: nat, w: nat, e: Endness)
      requires startStr == start + Span(|contents|, w)
      modifies memory
      ensures memory.cells == Partial(old(memory.cells), contents, |contents|, start, w, e).Memory()
    {
      var ptr, str := start, startStr;
      ghost var p := Partial(memory.cells, contents, 0, start, w, e);
      for i := 0 to |contents|
        invariant p == Partial(old(memory.cells), contents, i, start, w, e)
        invariant ptr == start + |p.table| && str == p.base + |p.texts|
        invariant memory.cells == p.Memory()
      {
        PartialStep(old(memory.cells), contents, i, start, w, e);
        ghost var next := p.Extend(WordBytes(PointerFor(contents[i], str), w, e), TextOf(contents[i]));
        ptr, str := DumpItem(memory, contents[i], ptr, str, w, e, p);
        p := next;
      }
    }

    method TableBytes(w: nat) returns (ptrSize: nat)
      ensures ptrSize == Span(|contents|, w)
    {
      ptrSize := |contents| * w;
      SpanIsProduct(|contents|, w);
    }

    /** All the stores, once the start and the zero fill are known. */
    method DumpAt(memory: Memory, start: nat, zeroFill: nat, ptrSize: nat, end: nat, w: nat, e: Endness)
      requires ptrSize == Span(|contents|, w) && end == start + TableSize(contents, w) + zeroFill
      modifies memory
      ensures memory.cells == Write(old(memory.cells), start, Image(contents, start, zeroFill, w, e))
    {
      ghost var was, items := memory.cells, contents;
      var at := end - zeroFill;
      DumpEntries(memory, start, start + ptrSize, w, e);
      ghost var written := memory.cells;
      if zeroFill != 0 {
        memory.Store(at, Zeros(zeroFill));
      }
      AllWritten(was, written, memory.cells, items, start, zeroFill, w, e, at);
    }

    /** Writes the table so that it ends, with its zero fill, at `end`. */
    method Dump(memory: Memory, end: nat, align: nat, w: nat, e: Endness) returns (startAddr: nat)
      requires Valid()
      requires align > 0 && TableSize(contents, w) <= end
      modifies memory
      ensures startAddr % align == 0
      ensures 0 <= end - TableSize(contents, w) - startAddr < align
      ensures memory.cells
              == Write(old(memory.cells), startAddr,
                       Image(contents, startAddr, end - TableSize(contents, w) - startAddr, w, e))
    {
      var ptrSize := TableBytes(w);
      var zeroFill;
      startAddr, zeroFill := AlignDown(end - (strLen + ptrSize), align);
      DumpAt(memory, startAddr, zeroFill, ptrSize, end, w, e);
    }
  }

  method AlignDown(x: nat, align: nat) returns (r: nat, excess: nat)
    requires align > 0
    ensures r % align == 0 && r + excess == x && excess < align
  {
    excess := x % align;
    r := x - excess;
    assert r == (x / align) * align;
    MulMod(x / align, align);
  }

  /** What is written while dumping: a prefix of the table at `start` and a
      prefix of the strings at `base`, over the memory `was`. */
  datatype Progress = Progress(was: Cells, start: nat, table: seq<Byte>, base: nat, texts: seq<Byte>) {
    function Memory(): Cells {
      Write(Write(was, start, table), base, texts)
    }

    function Extend(word: seq<Byte>, data: seq<Byte>): Progress {
      this.(table := table + word, texts := texts + data)
    }

    /** The two stores of an entry extend both prefixes. */
    lemma ExtendBoth(word: seq<Byte>, data: seq<Byte>)
      requires start + |table| + |word| <= base
      ensures Write(Write(Memory(), start + |table|, word), base + |texts|, data) == Extend(word, data).Memory()
      ensures data == [] ==> Write(Memory(), start + |table|, word) == Extend(word, data).Memory()
    {
      WriteBelow(was, start, table, word, base, texts);
      WriteAppend(Write(was, start, table + word), base, texts, data);
    }
  }

  /** The progress after the first `i` entries. */
  function Partial(m: Cells, items: seq<Item>, i: nat, start: nat, w: nat, e: Endness): (p: Progress)
    requires i <= |items|
    ensures |p.table| == Span(i, w)
  {
    var base := start + Span(|items|, w);
    Progress(m, start, Table(items, i, base, w, e), base, Texts(items, i))
  }

  lemma PartialStep(m: Cells, items: seq<Item>, i: nat, start: nat, w: nat, e: Endness)
    requires i < |items|
    ensures
      var p := Partial(m, items, i, start, w, e);
      && p.start + |p.table| + w <= p.base
      && Partial(m, items, i + 1, start, w, e)
         == p.Extend(WordBytes(PointerFor(items[i], p.base + |p.texts|), w, e), TextOf(items[i]))
  {
    SpanMonotone(i + 1, |items|, w);
  }

  /** All entries and the zero fill make up the image. */
  lemma PartialAll(m: Cells, items: seq<Item>, start: nat, fill: nat, w: nat, e: Endness, at: int)
    requires at == start + TableSize(items, w)
    ensures Write(Partial(m, items, |items|, start, w, e).Memory(), at, Zeros(fill))
            == Write(m, start, Image(items, start, fill, w, e))
  {
    var table, texts := Table(items, |items|, start + Span(|items|, w), w, e), Texts(items, |items|);
    WriteAppend(m, start, table, texts);
    WriteAppend(m, start, table + texts, Zeros(fill));
  }

  lemma NothingFilled(m: Cells, at: int)
    ensures Write(m, at, Zeros(0)) == m
  {
  }

  lemma AllWritten(m: Cells, written: Cells, filled: Cells, items: seq<Item>, start: nat, fill: nat, w: nat, e: Endness, at: int)
    requires at == start + TableSize(items, w) && written == Partial(m, items, |items|, start, w, e).Memory()
    requires filled == if fill != 0 then Write(written, at, Zeros(fill)) else written
    ensures filled == Write(m, start, Image(items, start, fill, w, e))
  {
    PartialAll(m, items, start, fill, w, e, at);
    if fill == 0 { NothingFilled(written, at); }
  }

  /** Entry `k` points at the bytes of `arg` and a NUL. */
  ghost predicate HoldsArgument(m: Cells, argv: nat, k: nat, arg: seq<Byte>, w: nat, e: Endness) {
    && Mapped(m, argv + Span(k, w), w)
    && var at := PointerAt(m, argv, k, w, e);
       && Mapped(m, at, |arg| + 1)
       && Read(m, at, |arg| + 1) == arg + [0]
  }

  /** Every argument is found by following its pointer, and the vector is
      closed by a null pointer. */
  ghost predicate HoldsArguments(m: Cells, argv: nat, args: seq<seq<Byte>>, w: nat, e: Endness) {
    && (forall k :: 0 <= k < |args| ==> HoldsArgument(m, argv, k, args[k], w, e))
    && Mapped(m, argv + Span(|args|, w), w)
    && PointerAt(m, argv, |args|, w, e) == 0
  }

  predicate SameAt(m: Cells, m': Cells, a: int) {
    (a in m <==> a in m') && (a in m ==> m[a] == m'[a])
  }

  /** Nothing outside [from, to) differs. */
  ghost predicate SameOutside(m: Cells, m': Cells, from: int, to: int) {
    forall a :: !(from <= a < to) ==> SameAt(m, m', a)
  }

  /** The bytes from one address up to another are zero. */
  ghost predicate ZeroFrom(m: Cells, from: int, to: int) {
    forall a :: from <= a < to ==> a in m && m[a] == 0
  }

  /** Behind the strings the image is zero. */
  lemma ImageZeros(m: Cells, items: seq<Item>, start: nat, fill: nat, w: nat, e: Endness)
    ensures var at := start + TableSize(items, w);
            ZeroFrom(Write(m, start, Image(items, start, fill, w, e)), at, at + fill)
  {
    var n := TableSize(items, w);
    forall a | start + n <= a < start + n + fill
      ensures a in Write(m, start, Image(items, start, fill, w, e)) && Write(m, start, Image(items, start, fill, w, e))[a] == 0
    {
      WriteAt(m, start, Image(items, start, fill, w, e), a);
    }
  }

  lemma WriteFrame(m: Cells, a: int, s: seq<Byte>)
    ensures SameOutside(m, Write(m, a, s), a, a + |s|)
  {
    forall k | !(a <= k < a + |s|)
      ensures SameAt(m, Write(m, a, s), k)
    {
      WriteAt(m, a, s, k);
    }
  }

  function Argv(args: seq<seq<Byte>>): seq<Item> {
    AsItems(args) + [Pointer(0)]
  }

  lemma ArgumentHeld(m: Cells, args: seq<seq<Byte>>, k: nat, argv: nat, fill: nat, w: nat, e: Endness)
    requires argv + TableSize(Argv(args), w) < Modulus(w) && k < |args|
    ensures HoldsArgument(Write(m, argv, Image(Argv(args), argv, fill, w, e)), argv, k, args[k], w, e)
  {
    assert Argv(args)[k] == Text(args[k] + [0]);
    FollowPointer(m, Argv(args), k, argv, fill, w, e);
  }

  lemma ArgumentsHeld(m: Cells, args: seq<seq<Byte>>, argv: nat, fill: nat, w: nat, e: Endness)
    requires argv + TableSize(Argv(args), w) < Modulus(w)
    ensures HoldsArguments(Write(m, argv, Image(Argv(args), argv, fill, w, e)), argv, args, w, e)
  {
    forall k | 0 <= k < |args|
      ensures HoldsArgument(Write(m, argv, Image(Argv(args), argv, fill, w, e)), argv, k, args[k], w, e)
    {
      ArgumentHeld(m, args, k, argv, fill, w, e);
    }
    assert Argv(args)[|args|] == Pointer(0);
    FollowPointer(m, Argv(args), |args|, argv, fill, w, e);
    SmallUntouched(0, w);
  }

  lemma ArgumentsWritten(was: Cells, now: Cells, args: seq<seq<Byte>>, argv: nat, fill: nat, w: nat, e: Endness, end: nat)
    requires end == argv + TableSize(Argv(args), w) + fill && end < Modulus(w)
    requires now == Write(was, argv, Image(Argv(args), argv, fill, w, e))
    ensures SameOutside(was, now, argv, end) && HoldsArguments(now, argv, args, w, e)
    ensures ZeroFrom(now, argv + TableSize(Argv(args), w), end)
  {
    ImageZeros(was, Argv(args), argv, fill, w, e);
    ArgumentsHeld(was, args, argv, fill, w, e);
    WriteFrame(was, argv, Image(Argv(args), argv, fill, w, e));
  }

  /** Building an argument vector and dumping it. */
  method DumpArgs(memory: Memory, args: seq<seq<Byte>>, end: nat, align: nat, w: nat, e: Endness)
    returns (argv: nat)
    requires align > 0 && TableSize(Argv(args), w) <= end < Modulus(w)
    modifies memory
    ensures argv % align == 0 && argv <= end
    ensures SameOutside(old(memory.cells), memory.cells, argv, end)
    ensures HoldsArguments(memory.cells, argv, args, w, e) && ZeroFrom(memory.cells, argv + TableSize(Argv(args), w), end)
  {
    var spec := new StringTableSpec();
    spec.AppendArgs(args, true);
    assert spec.contents == Argv(args);
    ghost var was := memory.cells;
    argv := spec.Dump(memory, end, align, w, e);
    ArgumentsWritten(was, memory.cells, args, argv, end - TableSize(Argv(args), w) - argv, w, e, end);
  }
}
