/** The message queue of src/queue.c.  Messages of any length lie one behind the other in a ring; each
    is preceded by a header with its length and the address of the next one.  Payloads may be split
    at the end of the buffer, headers never are. */
module MsgFifo {
  import opened Memory
  import opened RingBuffer

  /** FIFO_HDR_LEN: the words `len` and `next`. */
  const HEADER: nat := 16

  /** The memory and the fields of `msg_fifo_t`. */
  datatype State = State(mem: seq<byte>, first: nat, last: nat, head: nat)

  /** What every state of the queue guarantees about its pointers. */
  ghost predicate InBounds(q: Ring, s: State) {
    && MIN_BUFFER <= q.size && 0 < q.start && q.End() <= |s.mem| && q.End() < WORD_LIMIT
    && q.start <= s.head < q.End()
    && (s.first != NULL ==> q.start <= s.first && q.start <= s.last && s.last + HEADER <= q.End())
  }

  // ---------------------------------------------------------------- msg_fifo_push

  predicate Wraps(q: Ring, s: State, n: nat) { s.head + n >= q.End() }

  /** Not even a header fits between the head and the end of the buffer. */
  predicate Restarts(q: Ring, s: State, n: nat) { Wraps(q, s, n) && q.End() < s.head + HEADER }

  /** The guards of a push of `n` bytes, header included. */
  predicate Accepts(q: Ring, s: State, n: nat) {
    && n <= q.size
    && (s.first != NULL ==>
          if Wraps(q, s, n) then q.start + n - (q.End() - s.head) < s.first
          else s.head + n < s.first)
  }

  /** `fifo_add_new_item` */
  function AddItem(m: seq<byte>, at: nat, len: nat): seq<byte>
    requires at + HEADER <= |m|
  {
    PutWord(PutWord(m, at + WORD, NULL), at, len)
  }

  /** The item at `at` in one piece. */
  function WholeItem(m: seq<byte>, at: nat, msg: seq<byte>): seq<byte>
    requires at + HEADER + |msg| <= |m|
  {
    Splice(AddItem(m, at, |msg|), at + HEADER, msg)
  }

  /** The item at `at`, of which `cut` payload bytes fit before the end of the buffer; the others go
      to its start. */
  function SplitItem(q: Ring, m: seq<byte>, at: nat, cut: nat, msg: seq<byte>): seq<byte>
    requires cut <= |msg| && at + HEADER + cut <= |m| && q.start + (|msg| - cut) <= |m|
  {
    Splice(Splice(AddItem(m, at, |msg|), at + HEADER, msg[..cut]), q.start, msg[cut..])
  }

  /** The item is written, and the head moves behind it. */
  function Place(q: Ring, s: State, msg: seq<byte>): State
    requires InBounds(q, s) && Accepts(q, s, |msg| + HEADER)
  {
    if Wraps(q, s, |msg| + HEADER) then
      var room := q.End() - s.head;
      if room < HEADER then
        s.(mem := WholeItem(s.mem, q.start, msg), head := q.start + |msg|)
      else
        s.(mem := SplitItem(q, s.mem, s.head, room - HEADER, msg), head := q.start + (|msg| - (room - HEADER)))
    else
      s.(mem := WholeItem(s.mem, s.head, msg), head := s.head + |msg| + HEADER)
  }

  /** Where the item goes: the head, or the start if not even a header fits behind the head. */
  function Slot(q: Ring, s: State, n: nat): nat {
    if Restarts(q, s, n) then q.start else s.head
  }

  /** The item `at` becomes the last one. */
  function Append(q: Ring, s: State, at: nat): State
    requires s.first != NULL ==> s.last + HEADER <= |s.mem|
  {
    if s.first == NULL then s.(first := at, last := at)
    else s.(mem := PutWord(s.mem, s.last + WORD, at), last := at)
  }

  /** `msg_fifo_push`.  A refused push may still move the head to the start. */
  function Push(q: Ring, s: State, msg: seq<byte>): State
    requires InBounds(q, s)
  {
    var n := |msg| + HEADER;
    if Accepts(q, s, n) then Append(q, Place(q, s, msg), Slot(q, s, n))
    else if n <= q.size then s.(head := Slot(q, s, n))
    else s
  }

  /** A push leaves the pointers, and every byte outside the buffer, in order. */
  lemma PushStaysInside(q: Ring, s: State, msg: seq<byte>)
    requires InBounds(q, s)
    ensures InBounds(q, Push(q, s, msg)) && |Push(q, s, msg).mem| == |s.mem|
    ensures SameBytes(s.mem, Push(q, s, msg).mem, 0, q.start)
    ensures SameBytes(s.mem, Push(q, s, msg).mem, q.End(), |s.mem|)
  {
    hide SameBytes;
    var n := |msg| + HEADER;
    if Accepts(q, s, n) {
      PlaceStaysInside(q, s, msg);
      AppendStaysInside(q, Place(q, s, msg), Slot(q, s, n));
    }
    SameChain(s.mem, if Accepts(q, s, n) then Place(q, s, msg).mem else s.mem, Push(q, s, msg).mem, 0, q.start);
    SameChain(s.mem, if Accepts(q, s, n) then Place(q, s, msg).mem else s.mem, Push(q, s, msg).mem, q.End(), |s.mem|);
  }

  lemma PlaceForm(q: Ring, s: State, msg: seq<byte>)
    requires InBounds(q, s) && Accepts(q, s, |msg| + HEADER)
    ensures var n, at, t := |msg| + HEADER, Slot(q, s, |msg| + HEADER), Place(q, s, msg);
      && t.first == s.first && t.last == s.last
      && q.start <= at && at + HEADER <= q.End() && q.start <= t.head < q.End()
      && if Wraps(q, s, n) && s.head + HEADER <= q.End() then
        && at == s.head && q.End() - at - HEADER <= |msg| && q.start + n - (q.End() - at) <= at
        && t.mem == SplitItem(q, s.mem, at, q.End() - at - HEADER, msg)
      else
        at + n <= q.End() && t.mem == WholeItem(s.mem, at, msg)
  {
    hide WholeItem, SplitItem;
  }

  lemma WholeInside(q: Ring, m: seq<byte>, at: nat, msg: seq<byte>)
    requires q.start <= at && at + HEADER + |msg| <= q.End() <= |m|
    ensures |WholeItem(m, at, msg)| == |m|
    ensures SameBytes(m, WholeItem(m, at, msg), 0, q.start) && SameBytes(m, WholeItem(m, at, msg), q.End(), |m|)
  {
  }

  lemma SplitInside(q: Ring, m: seq<byte>, at: nat, cut: nat, msg: seq<byte>)
    requires q.start <= at && at + HEADER + cut == q.End() <= |m| && cut <= |msg| && q.start + (|msg| - cut) <= at
    ensures |SplitItem(q, m, at, cut, msg)| == |m|
    ensures SameBytes(m, SplitItem(q, m, at, cut, msg), 0, q.start)
      && SameBytes(m, SplitItem(q, m, at, cut, msg), q.End(), |m|)
  {
  }

  lemma PlaceStaysInside(q: Ring, s: State, msg: seq<byte>)
    requires InBounds(q, s) && Accepts(q, s, |msg| + HEADER)
    ensures var t := Place(q, s, msg);
      && InBounds(q, t) && |t.mem| == |s.mem| && t.first == s.first && t.last == s.last
      && SameBytes(s.mem, t.mem, 0, q.start) && SameBytes(s.mem, t.mem, q.End(), |s.mem|)
    ensures q.start <= Slot(q, s, |msg| + HEADER) && Slot(q, s, |msg| + HEADER) + HEADER <= q.End()
  {
    hide WholeItem, SplitItem, Place, SameBytes, Accepts;
    PlaceForm(q, s, msg);
    var n, at := |msg| + HEADER, Slot(q, s, |msg| + HEADER);
    if Wraps(q, s, n) && s.head + HEADER <= q.End() {
      SplitInside(q, s.mem, at, q.End() - at - HEADER, msg);
    } else {
      WholeInside(q, s.mem, at, msg);
    }
  }

  lemma AppendStaysInside(q: Ring, s: State, at: nat)
    requires InBounds(q, s) && q.start <= at && at + HEADER <= q.End()
    ensures InBounds(q, Append(q, s, at)) && |Append(q, s, at).mem| == |s.mem|
    ensures SameBytes(s.mem, Append(q, s, at).mem, 0, q.start)
      && SameBytes(s.mem, Append(q, s, at).mem, q.End(), |s.mem|)
  {
    if s.first != NULL {
      BytesElsewhere(s.mem, s.last + WORD, at, 0, q.start);
      BytesElsewhere(s.mem, s.last + WORD, at, q.End(), |s.mem| - q.End());
    }
  }

  lemma SameChain(m: seq<byte>, r: seq<byte>, t: seq<byte>, a: nat, n: nat)
    requires |m| == |r| == |t| && (SameBytes(m, r, a, n) || m == r) && (SameBytes(r, t, a, n) || r == t)
    ensures SameBytes(m, t, a, n)
  {
  }

  // ---------------------------------------------------------------- layout

  /** A message and its position: the distance from the start of the buffer, counted on past the end
      of the buffer for items that come behind it. */
  datatype Item = Item(pos: nat, msg: seq<byte>) {
    function End(): nat { pos + HEADER + |msg| }
  }

  /** The distance from the start that position `x` stands for. */
  function Fold(size: nat, x: nat): nat {
    if x < size then x else x - size
  }

  /** Position `v` is where the next item goes behind one that ends at `e`: right there, or at the
      start if no header fits in front of the end of the buffer. */
  predicate Follows(size: nat, e: nat, v: nat) {
    v == e || (e < size && size - e < HEADER && v == size)
  }

  /** The items lie behind each other and fill at most one round of the ring. */
  ghost predicate Layout(size: nat, items: seq<Item>) {
    && items != []
    && items[0].pos < size
    && (forall k {:trigger items[k]} :: 0 <= k < |items| ==>
          items[k].pos < 2 * size && Fold(size, items[k].pos) + HEADER <= size)
    && (forall k {:trigger items[k]} :: 0 < k < |items| ==> Follows(size, items[k - 1].End(), items[k].pos))
    && items[|items| - 1].End() <= items[0].pos + size
  }

  /** The head is where the next item goes. */
  ghost predicate HeadFollows(size: nat, items: seq<Item>, head: nat)
    requires items != []
  {
    var e := items[|items| - 1].End();
    (e < 2 * size && head == Fold(size, e)) || (e < size && size - e < HEADER && head == 0)
  }

  /** The head after a restart: it is set to the start plus the payload alone, so it lies one header in
      front of the end of the item there. */
  ghost predicate HeadLags(size: nat, items: seq<Item>, head: nat)
    requires items != []
  {
    var last := items[|items| - 1];
    (last.pos == 0 || last.pos == size) && head == |last.msg|
  }

  function Address(q: Ring, x: nat): nat { q.start + Fold(q.size, x) }

  /** The item is in memory, byte for byte, and points to `next`. */
  ghost predicate ItemHolds(q: Ring, m: seq<byte>, item: Item, next: nat)
    requires q.End() <= |m|
  {
    && item.End() < 2 * q.size
    && Fold(q.size, item.pos) + HEADER <= q.size
    && Word(m, Address(q, item.pos)) == |item.msg|
    && Word(m, Address(q, item.pos) + WORD) == next
    && forall j {:trigger item.msg[j]} :: 0 <= j < |item.msg| ==> m[Address(q, item.pos + HEADER + j)] == item.msg[j]
  }

  function NextAddress(q: Ring, items: seq<Item>, k: nat): nat
    requires k < |items|
  {
    if k + 1 < |items| then Address(q, items[k + 1].pos) else NULL
  }

  /** The state holds the items. */
  ghost predicate Represents(q: Ring, s: State, items: seq<Item>) {
    && InBounds(q, s)
    && (s.first == NULL <==> items == [])
    && (items != [] ==>
          && Layout(q.size, items)
          && (HeadFollows(q.size, items, s.head - q.start) || HeadLags(q.size, items, s.head - q.start))
          && s.first == Address(q, items[0].pos)
          && s.last == Address(q, items[|items| - 1].pos)
          && forall k {:trigger items[k]} :: 0 <= k < |items| ==>
            ItemHolds(q, s.mem, items[k], NextAddress(q, items, k)))
  }

  function Messages(items: seq<Item>): seq<seq<byte>> {
    seq(|items|, k requires 0 <= k < |items| => items[k].msg)
  }

  /** Earlier items end before later ones begin, and all lie in one round of the ring. */
  lemma {:induction false} Ordered(size: nat, items: seq<Item>, i: nat, j: nat)
    requires Layout(size, items) && i < j < |items|
    ensures items[i].End() <= items[j].pos
    decreases j
  {
    assert Follows(size, items[j - 1].End(), items[j].pos);
    if i < j - 1 {
      Ordered(size, items, i, j - 1);
    }
  }

  lemma Window(size: nat, items: seq<Item>, k: nat)
    requires Layout(size, items) && k < |items|
    ensures items[0].pos <= items[k].pos && items[k].End() <= items[|items| - 1].End() <= items[0].pos + size
    ensures k + 1 < |items| ==> items[k].End() <= items[|items| - 1].pos
  {
    if k > 0 {
      Ordered(size, items, 0, k);
    }
    if k + 1 < |items| {
      Ordered(size, items, k, |items| - 1);
    }
  }

  // ---------------------------------------------------------------- writes, position by position

  /** The memories agree on the positions from `lo` to `hi`. */
  ghost predicate Agree(q: Ring, m: seq<byte>, r: seq<byte>, lo: nat, hi: nat) {
    && |m| == |r|
    && q.End() <= |m|
    && hi <= 2 * q.size
    && forall x {:trigger Address(q, x)} :: lo <= x < hi ==> r[Address(q, x)] == m[Address(q, x)]
  }

  lemma AgreeChain(q: Ring, m: seq<byte>, r: seq<byte>, t: seq<byte>, lo: nat, hi: nat)
    requires Agree(q, m, r, lo, hi) && Agree(q, r, t, lo, hi)
    ensures Agree(q, m, t, lo, hi)
  {
  }

  /** An item does not depend on other positions. */
  lemma ItemKept(q: Ring, m: seq<byte>, r: seq<byte>, item: Item, next: nat)
    requires q.End() <= |m| && ItemHolds(q, m, item, next) && Agree(q, m, r, item.pos, item.End())
    ensures ItemHolds(q, r, item, next)
  {
    var at := Address(q, item.pos);
    forall b | at <= b < at + HEADER ensures r[b] == m[b] {
      assert b == Address(q, item.pos + (b - at));
    }
    SameWord(m, r, at);
    SameWord(m, r, at + WORD);
    forall j | 0 <= j < |item.msg| ensures r[Address(q, item.pos + HEADER + j)] == item.msg[j] {
      assert m[Address(q, item.pos + HEADER + j)] == item.msg[j];
    }
  }

  /** `item->next = next` changes nothing else in the round of the ring that starts at `base`. */
  lemma Relink(q: Ring, m: seq<byte>, item: Item, prior: nat, next: nat, base: nat)
    requires q.End() <= |m| && ItemHolds(q, m, item, prior) && next < WORD_LIMIT
    requires base < q.size && base <= item.pos && item.End() <= base + q.size
    ensures var r := PutWord(m, Address(q, item.pos) + WORD, next);
      && ItemHolds(q, r, item, next)
      && Agree(q, m, r, base, item.pos) && Agree(q, m, r, item.pos + HEADER, base + q.size)
  {
    var at := Address(q, item.pos) + WORD;
    var r := PutWord(m, at, next);
    WordAfterPut(m, at, next);
    FieldKept(m, at, next, at - WORD);
    forall x | base <= x < base + q.size && !(item.pos <= x < item.pos + HEADER)
      ensures r[Address(q, x)] == m[Address(q, x)]
    {
      OutsideHeader(q, item.pos, x, base);
      BytesElsewhere(m, at, next, Address(q, x), 1);
    }
    forall j | 0 <= j < |item.msg| ensures r[Address(q, item.pos + HEADER + j)] == item.msg[j] {
      assert m[Address(q, item.pos + HEADER + j)] == item.msg[j];
    }
  }

  lemma FieldKept(m: seq<byte>, at: nat, w: nat, b: nat)
    requires at + WORD <= |m| && b + WORD <= at
    ensures Word(PutWord(m, at, w), b) == Word(m, b)
  {
    WordAfterSplice(m, at, Encode(w, WORD), b);
  }

  /** Positions in one round that are not in an unsplit header are not at its addresses. */
  lemma OutsideHeader(q: Ring, pos: nat, x: nat, base: nat)
    requires base < q.size && base <= pos && pos + HEADER <= base + q.size && base <= x < base + q.size
    requires Fold(q.size, pos) + HEADER <= q.size && !(pos <= x < pos + HEADER)
    ensures Address(q, x) < Address(q, pos) || Address(q, pos) + HEADER <= Address(q, x)
  {
  }

  // ---------------------------------------------------------------- placing an item

  lemma HeaderWritten(m: seq<byte>, at: nat, len: nat)
    requires at + HEADER <= |m| && len < WORD_LIMIT
    ensures |AddItem(m, at, len)| == |m|
    ensures Word(AddItem(m, at, len), at) == len && Word(AddItem(m, at, len), at + WORD) == NULL
    ensures SameBytes(m, AddItem(m, at, len), 0, at) && SameBytes(m, AddItem(m, at, len), at + HEADER, |m|)
  {
    var m1 := PutWord(m, at + WORD, NULL);
    WordAfterPut(m, at + WORD, NULL);
    WordAfterPut(m1, at, len);
    WordAfterSplice(m1, at, Encode(len, WORD), at + WORD);
  }

  /** `r` is `m` with a new last item, written inside the round of the ring that starts at `base`. */
  ghost predicate Lays(q: Ring, m: seq<byte>, r: seq<byte>, item: Item, base: nat) {
    && q.End() <= |m| && |r| == |m|
    && ItemHolds(q, r, item, NULL)
    && Agree(q, m, r, base, item.pos)
  }

  /** A contiguous item. */
  lemma LaysWhole(q: Ring, m: seq<byte>, item: Item, base: nat)
    requires q.End() <= |m| && q.End() < WORD_LIMIT
    requires base < q.size && base <= item.pos && item.End() <= base + q.size
    requires Fold(q.size, item.pos) + HEADER + |item.msg| <= q.size
    ensures Lays(q, m, WholeItem(m, Address(q, item.pos), item.msg), item, base)
  {
    hide AddItem, Word;
    var at := Address(q, item.pos);
    HeaderWritten(m, at, |item.msg|);
    var h := AddItem(m, at, |item.msg|);
    var r := Splice(h, at + HEADER, item.msg);
    WordAfterSplice(h, at + HEADER, item.msg, at);
    WordAfterSplice(h, at + HEADER, item.msg, at + WORD);
    forall x | base <= x < item.pos ensures r[Address(q, x)] == m[Address(q, x)] {
    }
  }

  /** An item whose payload is split at the end of the buffer. */
  lemma LaysSplit(q: Ring, m: seq<byte>, item: Item, base: nat)
    requires q.End() <= |m| && q.End() < WORD_LIMIT
    requires base < q.size && base <= item.pos < q.size <= item.End() <= base + q.size
    requires item.pos + HEADER <= q.size
    ensures Lays(q, m, SplitItem(q, m, Address(q, item.pos), q.size - item.pos - HEADER, item.msg), item, base)
  {
    hide SplitItem, Word;
    var at, cut := Address(q, item.pos), q.size - item.pos - HEADER;
    SplitWords(q, m, at, cut, item.msg);
    SplitBytes(q, m, at, cut, item.msg);
    var r := SplitItem(q, m, at, cut, item.msg);
    forall j | 0 <= j < |item.msg| ensures r[Address(q, item.pos + HEADER + j)] == item.msg[j] {
      assert Address(q, item.pos + HEADER + j) == if j < cut then at + HEADER + j else q.start + (j - cut);
    }
  }

  lemma SplitWords(q: Ring, m: seq<byte>, at: nat, cut: nat, msg: seq<byte>)
    requires cut <= |msg| < WORD_LIMIT && at + HEADER + cut == q.End() <= |m| && q.start + (|msg| - cut) <= at
    ensures |SplitItem(q, m, at, cut, msg)| == |m|
    ensures Word(SplitItem(q, m, at, cut, msg), at) == |msg| && Word(SplitItem(q, m, at, cut, msg), at + WORD) == NULL
  {
    hide AddItem, Word;
    HeaderWritten(m, at, |msg|);
    var a := AddItem(m, at, |msg|);
    var h := Splice(a, at + HEADER, msg[..cut]);
    WordAfterSplice(a, at + HEADER, msg[..cut], at);
    WordAfterSplice(a, at + HEADER, msg[..cut], at + WORD);
    WordAfterSplice(h, q.start, msg[cut..], at);
    WordAfterSplice(h, q.start, msg[cut..], at + WORD);
  }

  lemma SplitBytes(q: Ring, m: seq<byte>, at: nat, cut: nat, msg: seq<byte>)
    requires cut <= |msg| < WORD_LIMIT && at + HEADER + cut == q.End() <= |m| && q.start + (|msg| - cut) <= at
    ensures |SplitItem(q, m, at, cut, msg)| == |m|
    ensures forall j :: 0 <= j < cut ==> SplitItem(q, m, at, cut, msg)[at + HEADER + j] == msg[j]
    ensures forall j :: cut <= j < |msg| ==> SplitItem(q, m, at, cut, msg)[q.start + (j - cut)] == msg[j]
    ensures forall b {:trigger SplitItem(q, m, at, cut, msg)[b]} :: q.start + (|msg| - cut) <= b < at ==>
      SplitItem(q, m, at, cut, msg)[b] == m[b]
    ensures forall b {:trigger SplitItem(q, m, at, cut, msg)[b]} :: 0 <= b < q.start || q.End() <= b < |m| ==>
      SplitItem(q, m, at, cut, msg)[b] == m[b]
  {
    hide AddItem, Word;
    HeaderWritten(m, at, |msg|);
  }

  // ---------------------------------------------------------------- msg_fifo_push refines "append"

  /** The guards are passed, although the new item covers a byte of the header of the first item: it
      wraps around behind a first item that is not behind the head, or it starts at the front of the
      buffer and does not end before the first item. */
  predicate HitsFirst(q: Ring, s: State, n: nat) {
    && s.first != NULL && Accepts(q, s, n) && Wraps(q, s, n)
    && if Restarts(q, s, n) then q.start + n > s.first else s.head <= s.first
  }

  /** The head lies inside the last item. */
  predicate HeadInLast(q: Ring, s: State)
    requires InBounds(q, s)
  {
    s.first != NULL && s.last <= s.head < s.last + HEADER + Word(s.mem, s.last)
  }

  /** An accepted push of `n` bytes, header included, would write over an item of the queue. */
  predicate Damages(q: Ring, s: State, n: nat)
    requires InBounds(q, s)
  {
    Accepts(q, s, n) && (HitsFirst(q, s, n) || HeadInLast(q, s))
  }

  /** Where the round of the ring begins that the items and a new one at `pos` share. */
  function Base(items: seq<Item>, pos: nat): nat {
    if items == [] then pos else items[0].pos
  }

  /** The position that an accepted item gets. */
  function NewPos(q: Ring, s: State, n: nat): nat
    requires InBounds(q, s)
  {
    var pos := Slot(q, s, n) - q.start;
    if s.first == NULL || (Wraps(q, s, n) && !Restarts(q, s, n)) then pos else pos + q.size
  }

  /** A lagging head lies inside the last item. */
  lemma LagIsInside(q: Ring, s: State, items: seq<Item>)
    requires Represents(q, s, items) && items != [] && HeadLags(q.size, items, s.head - q.start)
    ensures HeadInLast(q, s) && s.last == q.start
    ensures if |items| == 1 then s.first == q.start else s.head + HEADER <= s.first
  {
    hide Word;
    var n := |items| - 1;
    assert ItemHolds(q, s.mem, items[n], NextAddress(q, items, n));
    Window(q.size, items, n);
    Window(q.size, items, 0);
  }

  /** The new item goes where the layout wants it. */
  lemma NewPosFits(q: Ring, s: State, items: seq<Item>, n: nat)
    requires Represents(q, s, items) && HEADER <= n && Accepts(q, s, n) && !Damages(q, s, n)
    ensures var pos := NewPos(q, s, n);
      && pos < 2 * q.size && Address(q, pos) == Slot(q, s, n) && Fold(q.size, pos) + HEADER <= q.size
      && Base(items, pos) < q.size && Base(items, pos) <= pos && pos + n <= Base(items, pos) + q.size
      && (items != [] ==> Follows(q.size, items[|items| - 1].End(), pos) && items[|items| - 1].End() <= pos)
  {
    hide ItemHolds;
    if items != [] {
      if HeadLags(q.size, items, s.head - q.start) {
        LagIsInside(q, s, items);
      }
      Window(q.size, items, |items| - 1);
    }
  }

  /** A single first item at the start of the buffer keeps every push out. */
  lemma StartIsBarrier(q: Ring, s: State, n: nat)
    requires InBounds(q, s) && s.first == q.start
    ensures !Accepts(q, s, n)
  {
  }

  lemma RepresentsInBounds(q: Ring, s: State, items: seq<Item>)
    requires Represents(q, s, items)
    ensures InBounds(q, s)
  {
  }

  lemma PlaceLays(q: Ring, s: State, items: seq<Item>, msg: seq<byte>)
    requires var n := |msg| + HEADER; Represents(q, s, items) && Accepts(q, s, n) && !Damages(q, s, n)
    ensures var pos := NewPos(q, s, |msg| + HEADER);
      Lays(q, s.mem, Place(q, s, msg).mem, Item(pos, msg), Base(items, pos))
  {
    hide Represents, SplitItem, WholeItem, Lays, Damages, Accepts, Place, NewPos;
    var n := |msg| + HEADER;
    RepresentsInBounds(q, s, items);
    var pos := NewPos(q, s, n);
    NewPosFits(q, s, items, n);
    PlaceForm(q, s, msg);
    if Wraps(q, s, n) && s.head + HEADER <= q.End() {
      SplitPosition(q, s, n, pos, Base(items, pos));
      LaysSplit(q, s.mem, Item(pos, msg), Base(items, pos));
    } else {
      LaysWhole(q, s.mem, Item(pos, msg), Base(items, pos));
    }
  }

  /** A split item is never counted past the end of the buffer. */
  lemma SplitPosition(q: Ring, s: State, n: nat, pos: nat, base: nat)
    requires InBounds(q, s) && Wraps(q, s, n) && s.head + HEADER <= q.End() && Address(q, pos) == Slot(q, s, n)
    requires pos < 2 * q.size && base < q.size && pos + n <= base + q.size
    ensures pos == s.head - q.start && pos < q.size <= pos + n
  {
  }

  /** The head after an accepted push: right behind the new item, except after a restart. */
  lemma PlaceHead(q: Ring, s: State, items: seq<Item>, msg: seq<byte>)
    requires var n := |msg| + HEADER; Represents(q, s, items) && Accepts(q, s, n) && !Damages(q, s, n)
    ensures q.start <= Place(q, s, msg).head < q.End()
    ensures var all, head := items + [Item(NewPos(q, s, |msg| + HEADER), msg)], Place(q, s, msg).head - q.start;
      if Restarts(q, s, |msg| + HEADER) then HeadLags(q.size, all, head)
      else HeadFollows(q.size, all, head)
  {
    hide ItemHolds, WholeItem, SplitItem;
    var n := |msg| + HEADER;
    NewPosFits(q, s, items, n);
    var pos := NewPos(q, s, n);
    assert (items + [Item(pos, msg)])[|items|] == Item(pos, msg);
  }

  lemma LayoutAppend(size: nat, items: seq<Item>, item: Item)
    requires items == [] || (Layout(size, items) && Follows(size, items[|items| - 1].End(), item.pos))
    requires item.pos < 2 * size && Fold(size, item.pos) + HEADER <= size
    requires Base(items, item.pos) < size && item.End() <= Base(items, item.pos) + size
    ensures Layout(size, items + [item])
  {
    var all := items + [item];
    forall k | 0 < k < |all| ensures Follows(size, all[k - 1].End(), all[k].pos) {
      if k < |items| {
        assert all[k] == items[k] && all[k - 1] == items[k - 1];
      }
    }
  }

  /** The last item so far, after the new one was written and it was linked to it; the items in front
      and the new one are not touched by that. */
  lemma LastItemLinked(q: Ring, m: seq<byte>, r: seq<byte>, last: Item, item: Item, base: nat)
    requires q.End() <= |m| && q.End() < WORD_LIMIT
    requires base < q.size && base <= last.pos && last.End() <= item.pos && item.End() <= base + q.size
    requires ItemHolds(q, m, last, NULL) && Lays(q, m, r, item, base)
    ensures |r| == |m|
    ensures var t := PutWord(r, Address(q, last.pos) + WORD, Address(q, item.pos));
      && ItemHolds(q, t, last, Address(q, item.pos)) && ItemHolds(q, t, item, NULL)
      && Agree(q, m, t, base, last.pos)
  {
    hide PutWord, Word;
    ItemKept(q, m, r, last, NULL);
    Relink(q, r, last, NULL, Address(q, item.pos), base);
    var t := PutWord(r, Address(q, last.pos) + WORD, Address(q, item.pos));
    ItemKept(q, r, t, item, NULL);
    AgreeChain(q, m, r, t, base, last.pos);
  }

  lemma AppendHolds(q: Ring, m: seq<byte>, r: seq<byte>, items: seq<Item>, item: Item)
    requires Layout(q.size, items) && q.End() <= |m| && q.End() < WORD_LIMIT
    requires forall k {:trigger items[k]} :: 0 <= k < |items| ==> ItemHolds(q, m, items[k], NextAddress(q, items, k))
    requires Lays(q, m, r, item, items[0].pos) && items[|items| - 1].End() <= item.pos
    requires item.End() <= items[0].pos + q.size
    ensures var t, all := PutWord(r, Address(q, items[|items| - 1].pos) + WORD, Address(q, item.pos)), items + [item];
      forall k {:trigger all[k]} :: 0 <= k < |all| ==> ItemHolds(q, t, all[k], NextAddress(q, all, k))
  {
    hide PutWord, Word, Lays;
    var n := |items| - 1;
    var last := items[n];
    assert ItemHolds(q, m, last, NULL);
    Window(q.size, items, n);
    LastItemLinked(q, m, r, last, item, items[0].pos);
    var t, all := PutWord(r, Address(q, last.pos) + WORD, Address(q, item.pos)), items + [item];
    hide ItemHolds, Agree;
    forall k | 0 <= k < |all| ensures ItemHolds(q, t, all[k], NextAddress(q, all, k)) {
      if k < n {
        EarlierItemHolds(q, m, t, items, k);
        assert all[k] == items[k] && all[k + 1] == items[k + 1];
      } else if k == n {
        assert all[k] == last && all[k + 1] == item;
      }
    }
  }

  lemma EarlierItemHolds(q: Ring, m: seq<byte>, t: seq<byte>, items: seq<Item>, k: nat)
    requires Layout(q.size, items) && q.End() <= |m| && k < |items| - 1
    requires ItemHolds(q, m, items[k], NextAddress(q, items, k)) && Agree(q, m, t, items[0].pos, items[|items| - 1].pos)
    ensures ItemHolds(q, t, items[k], NextAddress(q, items, k))
  {
    hide Word;
    Window(q.size, items, k);
    ItemKept(q, m, t, items[k], NextAddress(q, items, k));
  }

  lemma MessagesAppend(items: seq<Item>, item: Item)
    ensures Messages(items + [item]) == Messages(items) + [item.msg]
  {
  }

  /** What a push makes of the items. */
  function PushedItems(q: Ring, s: State, items: seq<Item>, msg: seq<byte>): seq<Item>
    requires InBounds(q, s)
  {
    var n := |msg| + HEADER;
    if Accepts(q, s, n) then items + [Item(NewPos(q, s, n), msg)] else items
  }

  /** A push that does not damage appends exactly its message or, refused, changes no message. */
  lemma PushRefines(q: Ring, s: State, items: seq<Item>, msg: seq<byte>)
    requires Represents(q, s, items) && !Damages(q, s, |msg| + HEADER)
    ensures Represents(q, Push(q, s, msg), PushedItems(q, s, items, msg))
    ensures Messages(PushedItems(q, s, items, msg)) ==
      if Accepts(q, s, |msg| + HEADER) then Messages(items) + [msg] else Messages(items)
  {
    RepresentsInBounds(q, s, items);
    hide Represents, Accepts, Damages, NewPos, Slot, Wraps, Restarts;
    if !Accepts(q, s, |msg| + HEADER) {
      RefusedRepresents(q, s, items, |msg| + HEADER);
    } else {
      AcceptedRepresents(q, s, items, msg);
      MessagesAppend(items, Item(NewPos(q, s, |msg| + HEADER), msg));
    }
  }

  lemma AcceptedRepresents(q: Ring, s: State, items: seq<Item>, msg: seq<byte>)
    requires Represents(q, s, items)
    requires Accepts(q, s, |msg| + HEADER) && !Damages(q, s, |msg| + HEADER)
    ensures Represents(q, Push(q, s, msg), items + [Item(NewPos(q, s, |msg| + HEADER), msg)])
  {
    hide PutWord, Word, Place, Lays, ItemHolds, Layout, HeadFollows, HeadLags, Damages, NewPos, Accepts;
    var n := |msg| + HEADER;
    PushStaysInside(q, s, msg);
    NewPosFits(q, s, items, n);
    var item := Item(NewPos(q, s, n), msg);
    PlaceLays(q, s, items, msg);
    PlaceHead(q, s, items, msg);
    PlaceStaysInside(q, s, msg);
    LayoutAppend(q.size, items, item);
    if items == [] {
      FirstItemHolds(q, s.mem, Place(q, s, msg).mem, item);
    } else {
      AppendHolds(q, s.mem, Place(q, s, msg).mem, items, item);
    }
  }

  lemma FirstItemHolds(q: Ring, m: seq<byte>, r: seq<byte>, item: Item)
    requires Lays(q, m, r, item, item.pos)
    ensures |r| == |m| && ItemHolds(q, r, item, NULL)
  {
  }

  /** A refused push may move the head to the start: the next item would go there anyway. */
  lemma RefusedRepresents(q: Ring, s: State, items: seq<Item>, n: nat)
    requires Represents(q, s, items) && !Accepts(q, s, n) && HEADER <= n
    ensures n <= q.size ==> Represents(q, s.(head := Slot(q, s, n)), items)
  {
    hide ItemHolds;
    if items != [] {
      Window(q.size, items, |items| - 1);
    }
  }

  /** Which pushes of `n` bytes, header included, are accepted in a queue that is not empty, in any state, by
      the gap from the head to the first item, counted around the ring: with the first item in front, those
      that stay inside the gap but do not reach its end, and all that reach the end of the buffer; with the
      first item behind, those that reach the end of the buffer and do not fill the gap. */
  lemma AcceptedIff(q: Ring, s: State, n: nat)
    requires InBounds(q, s) && s.first != NULL
    ensures var gap := if s.first > s.head then s.first - s.head else s.first - s.head + q.size;
      Accepts(q, s, n) <==>
        && n <= q.size
        && if s.first > s.head then n < gap || q.End() - s.head <= n else q.End() - s.head <= n < gap
  {
  }

  lemma AcceptedIfEmpty(q: Ring, s: State, n: nat)
    requires InBounds(q, s) && s.first == NULL
    ensures Accepts(q, s, n) <==> n <= q.size
  {
  }

  /** A refused push leaves everything alone, with one exception: if the message reaches the end of the
      buffer, where no header fits, the head has already moved to the start. */
  lemma RefusedPush(q: Ring, s: State, msg: seq<byte>)
    requires InBounds(q, s) && !Accepts(q, s, |msg| + HEADER)
    ensures var n := |msg| + HEADER;
      Push(q, s, msg) ==
        if n <= q.size && s.head + n >= q.End() && q.End() - s.head < HEADER then s.(head := q.start) else s
  {
  }

  /** The pointers after any accepted push, damaging or not: the item goes to the head, or to the start where
      no header fits; the head goes behind the item around the ring, except that at the start of the buffer
      after a restart it counts the payload alone. */
  lemma AcceptedPush(q: Ring, s: State, msg: seq<byte>)
    requires InBounds(q, s) && Accepts(q, s, |msg| + HEADER)
    ensures var t, n := Push(q, s, msg), |msg| + HEADER;
      var restarts := s.head + n >= q.End() && q.End() - s.head < HEADER;
      && t.last == (if restarts then q.start else s.head)
      && t.first == (if s.first == NULL then t.last else s.first)
      && t.head ==
           if restarts then q.start + |msg| else if s.head + n < q.End() then s.head + n else s.head + n - q.size
  {
    hide PutWord, WholeItem, SplitItem;
  }

  /** After a refusal that moved the head to the start, the next accepted push that does not damage puts its
      item there and leaves the head right behind it, not inside it as a restart does. */
  lemma AfterRefusal(q: Ring, s: State, items: seq<Item>, refused: seq<byte>, msg: seq<byte>)
    requires Represents(q, s, items) && items != [] && !Accepts(q, s, |refused| + HEADER)
    requires |refused| + HEADER <= q.size && s.head + |refused| + HEADER >= q.End() && q.End() - s.head < HEADER
    ensures var u := Push(q, s, refused);
      && u == s.(head := q.start) && Represents(q, u, items)
      && (Accepts(q, u, |msg| + HEADER) && !Damages(q, u, |msg| + HEADER) ==>
            var t := Push(q, u, msg);
            && t.last == q.start && t.head == q.start + HEADER + |msg| && InBounds(q, t)
            && Represents(q, t, items + [Item(q.size, msg)]) && !HeadInLast(q, t))
  {
    var u := Push(q, s, refused);
    RefusedPush(q, s, refused);
    RefusedRepresents(q, s, items, |refused| + HEADER);
    RepresentsInBounds(q, u, items);
    if Accepts(q, u, |msg| + HEADER) && !Damages(q, u, |msg| + HEADER) {
      AcceptedPush(q, u, msg);
      NotInside(q, u, items, msg);
    }
  }

  lemma NotInside(q: Ring, s: State, items: seq<Item>, msg: seq<byte>)
    requires Represents(q, s, items) && items != [] && s.head == q.start
    requires Accepts(q, s, |msg| + HEADER) && !Damages(q, s, |msg| + HEADER)
    ensures var t := Push(q, s, msg);
      && t.last == q.start && t.head == q.start + HEADER + |msg| && InBounds(q, t)
      && Represents(q, t, items + [Item(q.size, msg)]) && !HeadInLast(q, t)
  {
    RepresentsInBounds(q, s, items);
    assert !Wraps(q, s, |msg| + HEADER) && PushedItems(q, s, items, msg) == items + [Item(q.size, msg)];
    AcceptedPush(q, s, msg);
    hide Represents, Damages, Push, Accepts, PushedItems, InBounds, Wraps;
    PushRefines(q, s, items, msg);
    LastLength(q, Push(q, s, msg), items + [Item(q.size, msg)]);
  }

  lemma LastLength(q: Ring, s: State, items: seq<Item>)
    requires Represents(q, s, items) && items != []
    ensures InBounds(q, s) && Word(s.mem, s.last) == |items[|items| - 1].msg|
  {
    hide Word, HeadFollows, HeadLags, Layout;
    var n := |items| - 1;
    assert ItemHolds(q, s.mem, items[n], NextAddress(q, items, n));
  }

  /** A message that fits, that is for which the ring has room behind the last item, is refused exactly
      if it would end in front of the end of the buffer in the round in which the first item began, or
      if it would fill the ring to the last byte, the latter except after a restart. */
  lemma FittingPushRefused(q: Ring, s: State, items: seq<Item>, item: Item)
    requires Represents(q, s, items) && items != [] && !HeadInLast(q, s)
    requires Layout(q.size, items + [item])
    ensures !Accepts(q, s, |item.msg| + HEADER) <==>
      item.End() < q.size || (item.End() == items[0].pos + q.size && s.head + HEADER <= q.End())
  {
    hide ItemHolds;
    var all, n := items + [item], |items|;
    assert all[n] == item && all[0] == items[0] && all[n - 1] == items[n - 1];
    Window(q.size, items, n - 1);
    if HeadLags(q.size, items, s.head - q.start) {
      LagIsInside(q, s, items);
    }
  }

  // ---------------------------------------------------------------- msg_fifo_pop

  datatype Popped = Popped(next: State, len: nat, out: seq<byte>)

  /** The reads of a pop stay inside the buffer. */
  ghost predicate PopReads(q: Ring, s: State, room: nat) {
    s.first != NULL ==>
      && q.start <= s.first && s.first + HEADER <= q.End() <= |s.mem|
      && (Word(s.mem, s.first) <= room ==> Word(s.mem, s.first) + HEADER <= q.size)
  }

  /** `len` bytes from `data` on, around the end of the buffer. */
  function Payload(q: Ring, m: seq<byte>, data: nat, len: nat): seq<byte>
    requires q.start <= data <= q.End() <= |m| && len <= q.size && data + len <= q.End() + q.size
  {
    if data + len > q.End() then m[data..q.End()] + m[q.start..q.start + (len - (q.End() - data))]
    else m[data..data + len]
  }

  /** `msg_fifo_pop` with room for `room` bytes. */
  function Pop(q: Ring, s: State, room: nat): Popped
    requires PopReads(q, s, room)
  {
    if s.first == NULL || Word(s.mem, s.first) > room then Popped(s, 0, [])
    else
      var len := Word(s.mem, s.first);
      Popped(s.(first := Word(s.mem, s.first + WORD)), len, Payload(q, s.mem, s.first + HEADER, len))
  }

  /** A pop moves nothing but `first`, whatever it finds. */
  lemma PopKeeps(q: Ring, s: State, room: nat)
    requires PopReads(q, s, room)
    ensures var t := Pop(q, s, room).next; t.mem == s.mem && t.head == s.head && t.last == s.last
  {
  }

  /** An item counted from the next round of the ring. */
  function Rebase(size: nat, item: Item): Item {
    Item(if item.pos >= size then item.pos - size else item.pos, item.msg)
  }

  /** Items counted from the round of the ring in which the first of them begins. */
  function Rebased(size: nat, rest: seq<Item>): seq<Item> {
    if rest != [] && rest[0].pos >= size then
      seq(|rest|, k requires 0 <= k < |rest| => Rebase(size, rest[k]))
    else rest
  }

  /** The items behind the first one. */
  ghost predicate Behind(size: nat, items: seq<Item>, rest: seq<Item>)
    requires |items| >= 2
  {
    |rest| == |items| - 1 && forall k {:trigger rest[k]} :: 0 <= k < |rest| ==>
      && rest[k] == (if items[1].pos >= size then Rebase(size, items[k + 1]) else items[k + 1])
      && Fold(size, rest[k].pos) == Fold(size, items[k + 1].pos)
      && (items[1].pos >= size ==> items[k + 1].pos >= size)
  }

  lemma RestBehind(size: nat, items: seq<Item>)
    requires Layout(size, items) && |items| >= 2
    ensures Behind(size, items, Rebased(size, items[1..]))
  {
    hide Layout;
    var tail := items[1..];
    var rest := Rebased(size, tail);
    assert |rest| == |items| - 1;
    forall k | 0 <= k < |rest|
      ensures rest[k] == if items[1].pos >= size then Rebase(size, items[k + 1]) else items[k + 1]
      ensures Fold(size, rest[k].pos) == Fold(size, items[k + 1].pos)
      ensures items[1].pos >= size ==> items[k + 1].pos >= size
    {
      assert tail[k] == items[k + 1] && tail[0] == items[1];
      LaterBehind(size, items, k + 1);
    }
  }

  lemma LaterBehind(size: nat, items: seq<Item>, k: nat)
    requires Layout(size, items) && 1 <= k < |items|
    ensures items[1].pos <= items[k].pos < 2 * size
  {
    if k > 1 {
      Ordered(size, items, 1, k);
    }
  }

  lemma RestFollows(size: nat, items: seq<Item>, rest: seq<Item>, k: nat)
    requires Layout(size, items) && |items| >= 2 && Behind(size, items, rest) && 0 < k < |rest|
    ensures Follows(size, rest[k - 1].End(), rest[k].pos)
  {
    assert Follows(size, items[k].End(), items[k + 1].pos);
    LaterBehind(size, items, k);
    hide Layout;
    var a, b := rest[k - 1], rest[k];
    assert a.msg == items[k].msg;
  }

  lemma RestEnds(size: nat, items: seq<Item>, rest: seq<Item>)
    requires Layout(size, items) && |items| >= 2 && Behind(size, items, rest)
    ensures rest[0].pos < size && rest[|rest| - 1].End() <= rest[0].pos + size
  {
    Window(size, items, |items| - 1);
    Ordered(size, items, 0, 1);
    LaterBehind(size, items, |items| - 1);
    assert items[1].pos < 2 * size;
    hide Layout;
    var a, b := rest[0], rest[|rest| - 1];
    assert b.msg == items[|items| - 1].msg;
  }

  lemma RestLayout(size: nat, items: seq<Item>, rest: seq<Item>)
    requires Layout(size, items) && |items| >= 2 && Behind(size, items, rest)
    ensures Layout(size, rest)
  {
    RestEnds(size, items, rest);
    forall k | 0 < k < |rest| ensures Follows(size, rest[k - 1].End(), rest[k].pos) {
      RestFollows(size, items, rest, k);
    }
    forall k {:trigger rest[k]} | 0 <= k < |rest|
      ensures rest[k].pos < 2 * size && Fold(size, rest[k].pos) + HEADER <= size
    {
      LaterBehind(size, items, k + 1);
      assert Fold(size, items[k + 1].pos) + HEADER <= size;
    }
  }

  lemma RestHead(size: nat, items: seq<Item>, rest: seq<Item>, head: nat)
    requires Layout(size, items) && |items| >= 2 && Behind(size, items, rest)
    requires HeadFollows(size, items, head) || HeadLags(size, items, head)
    ensures rest != [] && (HeadFollows(size, rest, head) || HeadLags(size, rest, head))
  {
    var last, prior := rest[|rest| - 1], items[|items| - 1];
    LaterBehind(size, items, |items| - 1);
    Window(size, items, |items| - 1);
    hide Layout;
    assert last.msg == prior.msg && (last.pos == prior.pos || last.pos == prior.pos - size);
  }

  lemma RestHolds(q: Ring, m: seq<byte>, items: seq<Item>, rest: seq<Item>, k: nat)
    requires |items| >= 2 && Behind(q.size, items, rest) && k < |rest| && q.End() <= |m|
    requires ItemHolds(q, m, items[k + 1], NextAddress(q, items, k + 1))
    ensures ItemHolds(q, m, rest[k], NextAddress(q, rest, k))
  {
    var prior, item := items[k + 1], rest[k];
    assert item.msg == prior.msg;
    assert k + 1 < |rest| ==> NextAddress(q, rest, k) == Address(q, rest[k + 1].pos);
    forall j | 0 <= j < |item.msg| ensures m[Address(q, item.pos + HEADER + j)] == item.msg[j] {
      assert m[Address(q, prior.pos + HEADER + j)] == prior.msg[j];
    }
  }

  /** The first message is read whole, even if it is split. */
  lemma FirstRead(q: Ring, m: seq<byte>, item: Item, next: nat, s: State, room: nat)
    requires q.End() <= |m| && ItemHolds(q, m, item, next) && item.pos < q.size && item.End() <= item.pos + q.size
    requires s.mem == m && s.first == Address(q, item.pos) && s.first != NULL && q.start > 0
    ensures PopReads(q, s, room)
    ensures Pop(q, s, room) ==
      if |item.msg| <= room then Popped(s.(first := next), |item.msg|, item.msg) else Popped(s, 0, [])
  {
    var out := Pop(q, s, room).out;
    if |item.msg| <= room {
      forall j | 0 <= j < |item.msg| ensures out[j] == item.msg[j] {
        assert m[Address(q, item.pos + HEADER + j)] == item.msg[j];
      }
      assert out == item.msg;
    }
  }

  /** What a pop makes of the items. */
  function PoppedItems(size: nat, items: seq<Item>, room: nat): seq<Item> {
    if items != [] && |items[0].msg| <= room then Rebased(size, items[1..]) else items
  }

  /** A pop with enough room returns the oldest message, byte for byte, and removes it; otherwise it
      changes nothing. */
  lemma PopRefines(q: Ring, s: State, items: seq<Item>, room: nat)
    requires Represents(q, s, items)
    ensures PopReads(q, s, room)
    ensures Represents(q, Pop(q, s, room).next, PoppedItems(q.size, items, room))
    ensures if items != [] && |items[0].msg| <= room then
        && Pop(q, s, room).len == |items[0].msg| && Pop(q, s, room).out == items[0].msg
        && Word(s.mem, s.first) == |items[0].msg|
        && Messages(PoppedItems(q.size, items, room)) == Messages(items)[1..]
      else
        Pop(q, s, room) == Popped(s, 0, []) && PoppedItems(q.size, items, room) == items
  {
    if items != [] {
      hide Word;
      Window(q.size, items, 0);
      assert ItemHolds(q, s.mem, items[0], NextAddress(q, items, 0));
      hide ItemHolds, HeadFollows, HeadLags;
      FirstRead(q, s.mem, items[0], NextAddress(q, items, 0), s, room);
      if |items[0].msg| <= room && |items| >= 2 {
        RestRepresents(q, s, items, Rebased(q.size, items[1..]));
      }
    }
  }

  lemma RestRepresents(q: Ring, s: State, items: seq<Item>, rest: seq<Item>)
    requires Represents(q, s, items) && |items| >= 2 && rest == Rebased(q.size, items[1..])
    ensures Represents(q, s.(first := NextAddress(q, items, 0)), rest)
    ensures Messages(rest) == Messages(items)[1..]
  {
    hide ItemHolds, Layout, HeadFollows, HeadLags, Rebased;
    RestBehind(q.size, items);
    RestLayout(q.size, items, rest);
    RestHead(q.size, items, rest, s.head - q.start);
    forall k | 0 <= k < |rest| ensures ItemHolds(q, s.mem, rest[k], NextAddress(q, rest, k)) {
      assert ItemHolds(q, s.mem, items[k + 1], NextAddress(q, items, k + 1));
      RestHolds(q, s.mem, items, rest, k);
    }
    LayoutNonEmpty(q.size, rest);
  }

  lemma LayoutNonEmpty(size: nat, items: seq<Item>)
    requires Layout(size, items)
    ensures items != [] && items[0].pos < size
  {
  }

  // ---------------------------------------------------------------- msg_fifo_t

  class Fifo {
    var first: nat
    var last: nat
    var head: nat
    var start: nat
    var bufferLen: nat
    const mem: array<byte>

    ghost function Shape(): Ring
      reads this
    {
      Ring(start, bufferLen)
    }

    ghost function Now(): State
      reads this, mem
    {
      State(mem[..], first, last, head)
    }

    constructor (mem: array<byte>)
      ensures this.mem == mem
    {
      this.mem := mem;
    }

    /** `msg_fifo_init`, which leaves `last` alone. */
    method Init(buf: nat, bufLen: nat) returns (r: int)
      requires buf + bufLen <= mem.Length && buf + bufLen < WORD_LIMIT
      modifies this
      ensures r == if buf == NULL || bufLen < MIN_BUFFER then -1 else 0
      ensures r == 0 ==> Shape() == Ring(buf, bufLen) && Represents(Shape(), Now(), [])
      ensures r == 0 ==> head == buf && first == NULL && last == old(last)
      ensures r == -1 ==> unchanged(this)
    {
      if buf == NULL {
        return -1;
      }
      if bufLen < MIN_BUFFER {
        return -1;
      }
      start, bufferLen, first, head := buf, bufLen, NULL, buf;
      return 0;
    }

    /** `fifo_add_new_item` */
    method AddNewItem(len: nat) returns (item: nat)
      requires head + HEADER <= mem.Length && len < WORD_LIMIT
      modifies mem
      ensures item == head && mem[..] == AddItem(old(mem[..]), head, len)
    {
      item := head;
      StoreWord(mem, item + WORD, NULL);
      StoreWord(mem, item, len);
    }

    method PlaceWhole(msg: seq<byte>) returns (item: nat)
      requires head + HEADER + |msg| <= mem.Length && |msg| < WORD_LIMIT
      modifies mem
      ensures item == head && mem[..] == WholeItem(old(mem[..]), head, msg)
    {
      item := AddNewItem(|msg|);
      CopyIn(mem, item + HEADER, msg);
    }

    method PlaceSplit(msg: seq<byte>, cut: nat) returns (item: nat)
      requires head + HEADER + cut <= mem.Length && cut <= |msg| < WORD_LIMIT && start + (|msg| - cut) <= mem.Length
      modifies mem
      ensures item == head && mem[..] == SplitItem(Shape(), old(mem[..]), head, cut, msg)
    {
      item := AddNewItem(|msg|);
      CopyIn(mem, item + HEADER, msg[..cut]);
      CopyIn(mem, start, msg[cut..]);
    }

    /** The end of `msg_fifo_push`: the new item becomes the last one. */
    method Link(newItem: nat)
      requires first != NULL ==> last + HEADER <= mem.Length
      requires newItem < WORD_LIMIT
      modifies this, mem
      ensures Now() == Append(Shape(), old(Now()), newItem) && Shape() == old(Shape())
    {
      if first == NULL {
        first := newItem;
        last := newItem;
      } else {
        StoreWord(mem, last + WORD, newItem);
        last := newItem;
      }
    }

    /** `msg_fifo_push` */
    method PushMessage(msg: seq<byte>) returns (n: nat)
      requires InBounds(Shape(), Now())
      modifies this, mem
      ensures Shape() == old(Shape()) && Now() == Push(Shape(), old(Now()), msg)
      ensures n == if Accepts(Shape(), old(Now()), |msg| + HEADER) then |msg| else 0
    {
      hide WholeItem, SplitItem, Append, PopReads;
      if bufferLen < |msg| + HEADER {
        return 0;
      }
      var end := start + bufferLen;
      var newItem;
      if head + |msg| + HEADER >= end {
        var firstBlockLen := end - head;
        if firstBlockLen < HEADER {
          head := start;
          if first != NULL && start + (|msg| + HEADER) - firstBlockLen >= first {
            return 0;
          }
          newItem := PlaceWhole(msg);
          head := start + |msg|;
        } else {
          if first != NULL && start + (|msg| + HEADER) - firstBlockLen >= first {
            return 0;
          }
          firstBlockLen := firstBlockLen - HEADER;
          newItem := PlaceSplit(msg, firstBlockLen);
          head := start + (|msg| - firstBlockLen);
        }
      } else {
        if first != NULL && head + |msg| + HEADER >= first {
          return 0;
        }
        newItem := PlaceWhole(msg);
        head := head + (|msg| + HEADER);
      }
      Link(newItem);
      return |msg|;
    }

    /** `msg_fifo_pop` into a buffer with room for `room` bytes. */
    method PopMessage(room: nat) returns (n: nat, out: seq<byte>)
      requires PopReads(Shape(), Now(), room)
      modifies this
      ensures Shape() == old(Shape()) && Popped(Now(), n, out) == Pop(Shape(), old(Now()), room)
      ensures head == old(head) && last == old(last)
    {
      hide Word, Push, Accepts, InBounds;
      if first != NULL {
        var item := first;
        var len := Word(mem[..], item);
        if len <= room {
          first := Word(mem[..], item + WORD);
          out := CopyOut(item, len);
          return len, out;
        }
      }
      return 0, [];
    }

    /** The copies of `msg_fifo_pop`, in one piece or in two. */
    method CopyOut(item: nat, len: nat) returns (out: seq<byte>)
      requires start <= item && item + HEADER <= start + bufferLen <= mem.Length && len + HEADER <= bufferLen
      ensures out == Payload(Shape(), mem[..], item + HEADER, len)
    {
      var end := start + bufferLen;
      var itemEnd := item + len + HEADER;
      if itemEnd > end {
        var firstBlockLen := end - (item + HEADER);
        out := mem[item + HEADER..end] + mem[start..start + (len - firstBlockLen)];
      } else {
        out := mem[item + HEADER..item + HEADER + len];
      }
    }
  }
}
