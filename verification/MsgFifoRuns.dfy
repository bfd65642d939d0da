/** The message queue as its client sees it: what draining it yields, what a damaging push destroys, and
    whole runs. */
module MsgFifoRuns {
  import opened Memory
  import opened RingBuffer
  import opened MsgFifo

  // ---------------------------------------------------------------- what a client can read

  /** Popping with just enough room each time returns exactly the messages of `queue`, and then the
      queue is empty. */
  ghost predicate Drains(q: Ring, s: State, queue: seq<seq<byte>>)
    decreases |queue|
  {
    if queue == [] then s.first == NULL
    else
      var room := |queue[0]|;
      && s.first != NULL && PopReads(q, s, room) && s.first + WORD <= |s.mem| && Word(s.mem, s.first) == room
      && Pop(q, s, room).out == queue[0]
      && Drains(q, Pop(q, s, room).next, queue[1..])
  }

  lemma {:induction false} RepresentedDrains(q: Ring, s: State, items: seq<Item>)
    requires Represents(q, s, items)
    ensures Drains(q, s, Messages(items))
    decreases |items|
  {
    if items != [] {
      var room := |items[0].msg|;
      PopRefines(q, s, items, room);
      RepresentedDrains(q, Pop(q, s, room).next, PoppedItems(q.size, items, room));
    }
  }

  // ---------------------------------------------------------------- bytes and words

  lemma {:induction false} DecodeInjective(a: seq<byte>, b: seq<byte>)
    requires |a| == |b| && Decode(a) == Decode(b)
    ensures a == b
  {
    if a != [] {
      assert a[0] == b[0] && Decode(a[1..]) == Decode(b[1..]);
      DecodeInjective(a[1..], b[1..]);
      assert a == [a[0]] + a[1..] && b == [b[0]] + b[1..];
    }
  }

  lemma WordsDiffer(m: seq<byte>, r: seq<byte>, a: nat, x: nat)
    requires a <= x < a + WORD <= |m| && |m| == |r| && m[x] != r[x]
    ensures Word(m, a) != Word(r, a)
  {
    assert m[x] == m[a..a + WORD][x - a] && r[x] == r[a..a + WORD][x - a];
    if Word(m, a) == Word(r, a) {
      DecodeInjective(m[a..a + WORD], r[a..a + WORD]);
    }
  }

  lemma {:induction false} DecodeZero(s: seq<byte>)
    requires forall k :: 0 <= k < |s| ==> s[k] == 0
    ensures Decode(s) == 0
  {
    if s != [] {
      DecodeZero(s[1..]);
    }
  }

  lemma ZeroWord(m: seq<byte>, a: nat)
    requires a + WORD <= |m| && forall x :: a <= x < a + WORD ==> m[x] == 0
    ensures Word(m, a) == 0
  {
    DecodeZero(m[a..a + WORD]);
  }

  lemma {:induction false} EncodeSmall(w: nat, n: nat)
    requires w < 256
    ensures forall k :: 1 <= k < n ==> Encode(w, n)[k] == 0
    ensures n > 0 ==> Encode(w, n)[0] == w
  {
    if n > 0 {
      EncodeSmall(0, n - 1);
    }
  }

  // ---------------------------------------------------------------- what a push writes

  /** The new item at `at`: its length, no next item, and the first `cut` bytes of its payload. */
  ghost predicate Written(m: seq<byte>, at: nat, msg: seq<byte>, cut: nat) {
    && cut <= |msg| && at + HEADER + cut <= |m|
    && (forall k {:trigger Encode(|msg|, WORD)[k]} :: 0 <= k < WORD ==> m[at + k] == Encode(|msg|, WORD)[k])
    && (forall x {:trigger m[x]} :: at + WORD <= x < at + HEADER ==> m[x] == 0)
    && forall k {:trigger msg[k]} :: 0 <= k < cut ==> m[at + HEADER + k] == msg[k]
  }

  /** How much of the payload lies behind the header. */
  function Cut(q: Ring, s: State, n: nat): int {
    if Wraps(q, s, n) && !Restarts(q, s, n) then q.End() - s.head - HEADER else n - HEADER
  }

  lemma HeaderBytes(m: seq<byte>, at: nat, len: nat)
    requires at + HEADER <= |m|
    ensures |AddItem(m, at, len)| == |m|
    ensures forall k {:trigger Encode(len, WORD)[k]} :: 0 <= k < WORD ==>
      AddItem(m, at, len)[at + k] == Encode(len, WORD)[k]
    ensures forall x {:trigger AddItem(m, at, len)[x]} :: at + WORD <= x < at + HEADER ==> AddItem(m, at, len)[x] == 0
  {
    hide Encode;
    EncodeSmall(NULL, WORD);
    TwoWords(m, at, Encode(len, WORD), Encode(NULL, WORD));
  }

  lemma TwoWords(m: seq<byte>, at: nat, w: seq<byte>, v: seq<byte>)
    requires at + HEADER <= |m| && |w| == |v| == WORD
    ensures var r := Splice(Splice(m, at + WORD, v), at, w);
      && |r| == |m|
      && (forall k {:trigger w[k]} :: 0 <= k < WORD ==> r[at + k] == w[k])
      && forall x {:trigger r[x]} :: at + WORD <= x < at + HEADER ==> r[x] == v[x - at - WORD]
  {
  }

  lemma WholeWritten(m: seq<byte>, at: nat, msg: seq<byte>)
    requires at + HEADER + |msg| <= |m|
    ensures Written(WholeItem(m, at, msg), at, msg, |msg|)
  {
    hide AddItem, Encode;
    HeaderBytes(m, at, |msg|);
  }

  lemma SplitWritten(q: Ring, m: seq<byte>, at: nat, cut: nat, msg: seq<byte>)
    requires cut <= |msg| && at + HEADER + cut == q.End() <= |m| && q.start + (|msg| - cut) <= at
    ensures Written(SplitItem(q, m, at, cut, msg), at, msg, cut)
  {
    hide AddItem, Encode;
    HeaderBytes(m, at, |msg|);
  }

  lemma PlaceWritten(q: Ring, s: State, msg: seq<byte>)
    requires InBounds(q, s) && Accepts(q, s, |msg| + HEADER)
    ensures var n := |msg| + HEADER;
      Cut(q, s, n) >= 0 && Written(Place(q, s, msg).mem, Slot(q, s, n), msg, Cut(q, s, n))
  {
    hide Written, Place, Accepts, WholeItem, SplitItem;
    PlaceForm(q, s, msg);
    var n, at := |msg| + HEADER, Slot(q, s, |msg| + HEADER);
    if Wraps(q, s, n) && s.head + HEADER <= q.End() {
      SplitWritten(q, s.mem, at, q.End() - at - HEADER, msg);
    } else {
      WholeWritten(s.mem, at, msg);
    }
  }

  /** The new item in memory, with the link to it from the item at `last` written afterwards. */
  ghost predicate Laid(m: seq<byte>, last: nat, at: nat, msg: seq<byte>, cut: nat) {
    && cut <= |msg| && at + HEADER + cut <= |m| && last + HEADER <= |m|
    && Word(m, last + WORD) == at
    && forall k {:trigger ItemByte(at, msg, k)} :: 0 <= k < HEADER + cut && !(last + WORD <= at + k < last + HEADER) ==>
      m[at + k] == ItemByte(at, msg, k)
  }

  /** Byte `k` of an item: its length, no next item, its payload. */
  function ItemByte(at: nat, msg: seq<byte>, k: nat): byte
    requires k < HEADER + |msg|
  {
    if k < WORD then Encode(|msg|, WORD)[k] else if k < HEADER then 0 else msg[k - HEADER]
  }

  /** The memory after an accepted push behind other items. */
  lemma PushLays(q: Ring, s: State, msg: seq<byte>)
    requires InBounds(q, s) && s.first != NULL && Accepts(q, s, |msg| + HEADER)
    ensures var n, t := |msg| + HEADER, Push(q, s, msg);
      && |t.mem| == |s.mem| && t.first == s.first && Cut(q, s, n) >= 0
      && q.start <= Slot(q, s, n) && Slot(q, s, n) + HEADER <= q.End()
      && Laid(t.mem, s.last, Slot(q, s, n), msg, Cut(q, s, n))
  {
    hide Place, Accepts, Word, Encode, Slot, Cut;
    PlaceStaysInside(q, s, msg);
    PlaceWritten(q, s, msg);
    WordAfterPut(Place(q, s, msg).mem, s.last + WORD, Slot(q, s, |msg| + HEADER));
  }

  /** Any accepted push changes no other bytes than those of its item, in one part or two, and the link of the
      item that was the last. */
  lemma PushFrame(q: Ring, s: State, msg: seq<byte>, x: nat)
    requires InBounds(q, s) && Accepts(q, s, |msg| + HEADER) && x < |s.mem|
    requires var at, cut := Slot(q, s, |msg| + HEADER), Cut(q, s, |msg| + HEADER);
      !(at <= x < at + HEADER + cut) && !(q.start <= x < q.start + |msg| - cut)
    requires s.first != NULL ==> !(s.last + WORD <= x < s.last + HEADER)
    ensures |Push(q, s, msg).mem| == |s.mem| && Push(q, s, msg).mem[x] == s.mem[x]
  {
    hide AddItem, Place, Accepts, Encode, WholeItem, SplitItem;
    PlaceForm(q, s, msg);
    var n, at := |msg| + HEADER, Slot(q, s, |msg| + HEADER);
    if Wraps(q, s, n) && s.head + HEADER <= q.End() {
      SplitFrame(q, s.mem, at, q.End() - at - HEADER, msg, x);
    } else {
      WholeFrame(s.mem, at, msg, x);
    }
  }

  lemma WholeFrame(m: seq<byte>, at: nat, msg: seq<byte>, x: nat)
    requires at + HEADER + |msg| <= |m| && |msg| < WORD_LIMIT && x < |m| && !(at <= x < at + HEADER + |msg|)
    ensures |WholeItem(m, at, msg)| == |m| && WholeItem(m, at, msg)[x] == m[x]
  {
    hide AddItem, Encode;
    HeaderWritten(m, at, |msg|);
  }

  lemma SplitFrame(q: Ring, m: seq<byte>, at: nat, cut: nat, msg: seq<byte>, x: nat)
    requires cut <= |msg| < WORD_LIMIT && at + HEADER + cut == q.End() <= |m| && q.start + (|msg| - cut) <= at
    requires x < |m| && !(at <= x < at + HEADER + cut) && !(q.start <= x < q.start + |msg| - cut)
    ensures |SplitItem(q, m, at, cut, msg)| == |m| && SplitItem(q, m, at, cut, msg)[x] == m[x]
  {
    hide AddItem, Encode;
    HeaderWritten(m, at, |msg|);
  }

  /** The headers of the first and of the last item do not meet, unless they are one item. */
  ghost predicate Ends(q: Ring, s: State, items: seq<Item>) {
    && items != [] && InBounds(q, s) && s.first != NULL && s.first + HEADER <= q.End()
    && if |items| == 1 then s.last == s.first else s.last + HEADER <= s.first || s.first + HEADER <= s.last
  }

  lemma HeadersApart(q: Ring, s: State, items: seq<Item>)
    requires Represents(q, s, items) && items != []
    ensures Ends(q, s, items)
  {
    hide ItemHolds, HeadFollows, HeadLags;
    Window(q.size, items, 0);
    Window(q.size, items, |items| - 1);
    if |items| > 1 {
      Ordered(q.size, items, 0, |items| - 1);
    }
  }

  // ---------------------------------------------------------------- damaged headers

  /** The words of the new header reach the length of the first item; with a short message all these
      bytes are 0. */
  lemma LengthCleared(m: seq<byte>, first: nat, last: nat, at: nat, msg: seq<byte>, cut: nat)
    requires Laid(m, last, at, msg, cut) && at < first <= at + WORD && |msg| < 256
    requires last == first || last + HEADER <= first || first + HEADER <= last
    ensures first + WORD <= |m| && Word(m, first) == 0
  {
    hide Word, Encode;
    EncodeSmall(|msg|, WORD);
    forall x | first <= x < first + WORD ensures m[x] == 0 {
      assert m[x] == ItemByte(at, msg, x - at);
    }
    ZeroWord(m, first);
  }

  /** The empty link of the new header and a payload of zeros cover the link of the first item. */
  lemma LinkCleared(m: seq<byte>, first: nat, last: nat, at: nat, msg: seq<byte>, cut: nat)
    requires Laid(m, last, at, msg, cut) && at <= first <= at + WORD && first <= at + cut
    requires last + HEADER <= first || first + HEADER <= last
    requires forall k :: 0 <= k < |msg| ==> msg[k] == 0
    ensures first + HEADER <= |m| && Word(m, first + WORD) == NULL
  {
    hide Word, Encode;
    forall x | first + WORD <= x < first + HEADER ensures m[x] == 0 {
      assert m[x] == ItemByte(at, msg, x - at);
    }
    ZeroWord(m, first + WORD);
  }

  /** Two payloads that differ in a byte that lies on the length of the first item. */
  lemma LengthsDiffer(m: seq<byte>, r: seq<byte>, first: nat, last: nat, at: nat, a: seq<byte>, b: seq<byte>,
      cut: nat, x: nat)
    requires Laid(m, last, at, a, cut) && Laid(r, last, at, b, cut) && |m| == |r|
    requires first <= x < first + WORD && at + HEADER <= x < at + HEADER + cut
    requires a[x - at - HEADER] != b[x - at - HEADER]
    requires last == first || last + HEADER <= first || first + HEADER <= last
    ensures first + WORD <= |m| ==> Word(m, first) != Word(r, first)
  {
    hide Word, Encode;
    assert m[x] == ItemByte(at, a, x - at) && r[x] == ItemByte(at, b, x - at);
    if first + WORD <= |m| {
      WordsDiffer(m, r, first, x);
    }
  }

  /** The link of the only item lies on the first byte of the payload, which therefore does not depend on
      the message. */
  lemma PayloadOverwritten(m: seq<byte>, r: seq<byte>, last: nat, at: nat, a: seq<byte>, b: seq<byte>, cut: nat)
    requires Laid(m, last, at, a, cut) && Laid(r, last, at, b, cut) && |m| == |r| && cut > 0
    requires at < last <= at + WORD
    ensures m[at + HEADER] == r[at + HEADER]
  {
    hide Encode;
    if m[at + HEADER] != r[at + HEADER] {
      WordsDiffer(m, r, last + WORD, at + HEADER);
    }
  }

  // ---------------------------------------------------------------- damage to the first item

  /** `len` times the byte `b`. */
  function Fill(len: nat, b: byte): (msg: seq<byte>)
    ensures |msg| == len && forall k :: 0 <= k < len ==> msg[k] == b
  {
    seq(len, (_: nat) => b)
  }

  /** After the push of `msg` the old messages and the new one cannot be drained. */
  ghost predicate Spoils(q: Ring, s: State, items: seq<Item>, msg: seq<byte>)
    requires InBounds(q, s)
  {
    !Drains(q, Push(q, s, msg), Messages(items) + [msg])
  }

  /** What the first message says about the memory. */
  lemma DrainsFirst(q: Ring, s: State, queue: seq<seq<byte>>)
    requires queue != [] && Drains(q, s, queue)
    ensures s.first != NULL && s.first + HEADER <= q.End() <= |s.mem| && Word(s.mem, s.first) == |queue[0]|
    ensures Drains(q, s.(first := Word(s.mem, s.first + WORD)), queue[1..])
    ensures Word(s.mem, s.first + WORD) == NULL <==> queue[1..] == []
    ensures s.first + HEADER < q.End() && queue[0] != [] ==> s.mem[s.first + HEADER] == queue[0][0]
  {
    var room := |queue[0]|;
    assert Pop(q, s, room) == Popped(s.(first := Word(s.mem, s.first + WORD)), room,
                                     Payload(q, s.mem, s.first + HEADER, room));
    hide Word;
    PayloadFirst(q, s.mem, s.first + HEADER, room);
  }

  lemma PayloadFirst(q: Ring, m: seq<byte>, data: nat, len: nat)
    requires q.start <= data <= q.End() <= |m| && len <= q.size && data + len <= q.End() + q.size
    ensures |Payload(q, m, data, len)| == len
    ensures data < q.End() && len > 0 ==> Payload(q, m, data, len)[0] == m[data]
  {
  }

  lemma QueueFront(items: seq<Item>, msg: seq<byte>)
    requires items != []
    ensures var queue := Messages(items) + [msg];
      |queue| >= 2 && queue[0] == items[0].msg && queue[1..] != [] && (|items| == 1 ==> queue[1..] == [msg])
  {
  }

  /** What a push that does not spoil says about the memory: the first item has its length and its link;
      if it is the only one, the link leads to the new item, and that is the last one. */
  lemma Unspoilt(q: Ring, s: State, items: seq<Item>, msg: seq<byte>)
    requires items != [] && InBounds(q, s) && Accepts(q, s, |msg| + HEADER) && s.first != NULL
    requires !Spoils(q, s, items, msg)
    ensures var t, at := Push(q, s, msg), Slot(q, s, |msg| + HEADER);
      && |t.mem| == |s.mem| && s.first + HEADER <= |t.mem|
      && Word(t.mem, s.first) == |items[0].msg| && Word(t.mem, s.first + WORD) != NULL
      && (s.last == s.first && |items| == 1 && at + HEADER < q.End() && msg != [] ==>
            at + HEADER < |t.mem| && t.mem[at + HEADER] == msg[0])
      && (s.last == s.first && |items| == 1 ==> s.first != at)
  {
    hide Accepts, Word, Push, Place, Encode, Drains, Messages, Slot;
    var t, at, queue := Push(q, s, msg), Slot(q, s, |msg| + HEADER), Messages(items) + [msg];
    QueueFront(items, msg);
    PushLays(q, s, msg);
    hide InBounds, Spoils;
    DrainsFirst(q, t, queue);
    if s.last == s.first && |items| == 1 {
      DrainsFirst(q, t.(first := at), queue[1..]);
    }
  }

  /** Where the new item lies if it hits the first one. */
  lemma HitGeometry(q: Ring, s: State, n: nat)
    requires InBounds(q, s) && HEADER < n && HitsFirst(q, s, n) && s.first + HEADER <= q.End()
    ensures var at, cut := Slot(q, s, n), Cut(q, s, n);
      && q.start <= at <= s.first && s.first <= at + HEADER + cut
      && (Restarts(q, s, n) ==> at < s.first < at + HEADER + cut && (s.first <= at + WORD ==> n < 256))
      && (!Restarts(q, s, n) ==> at == s.head && s.first <= at + cut)
      && cut <= n - HEADER && (at < s.first ==> cut > 0)
  {
    if s.first == q.start {
      StartIsBarrier(q, s, n);
    }
  }

  /** The payload reaches byte `x` of the length of the first item: of two payloads that differ there at
      least one spoils the queue. */
  lemma SpoilsOneOf(q: Ring, s: State, items: seq<Item>, a: seq<byte>, b: seq<byte>, x: nat)
    requires Ends(q, s, items) && |a| == |b| && Accepts(q, s, |a| + HEADER)
    requires s.first <= x < s.first + WORD
    requires var at := Slot(q, s, |a| + HEADER);
      && at + HEADER <= x < at + HEADER + Cut(q, s, |a| + HEADER)
      && x - at - HEADER < |a| && a[x - at - HEADER] != b[x - at - HEADER]
    ensures Spoils(q, s, items, a) || Spoils(q, s, items, b)
  {
    hide Accepts, Push, Spoils, Word, Laid, Slot, Cut, InBounds;
    PushLays(q, s, a);
    PushLays(q, s, b);
    LengthsDiffer(Push(q, s, a).mem, Push(q, s, b).mem, s.first, s.last, Slot(q, s, |a| + HEADER), a, b,
      Cut(q, s, |a| + HEADER), x);
    if !Spoils(q, s, items, a) {
      Unspoilt(q, s, items, a);
      if !Spoils(q, s, items, b) {
        Unspoilt(q, s, items, b);
      }
    }
  }

  /** The item right in front of the only one: of two payloads that differ in the first byte at least one
      spoils the queue. */
  lemma SpoilsSingle(q: Ring, s: State, items: seq<Item>, a: seq<byte>, b: seq<byte>)
    requires Ends(q, s, items) && |items| == 1 && |a| == |b| > 0 && a[0] != b[0] && Accepts(q, s, |a| + HEADER)
    requires var at := Slot(q, s, |a| + HEADER);
      at < s.first <= at + WORD && Cut(q, s, |a| + HEADER) > 0 && at + HEADER < q.End()
    ensures Spoils(q, s, items, a) || Spoils(q, s, items, b)
  {
    hide Accepts, Push, Spoils, Word, Laid, Slot, Cut, InBounds;
    PushLays(q, s, a);
    PushLays(q, s, b);
    var at, cut := Slot(q, s, |a| + HEADER), Cut(q, s, |a| + HEADER);
    PayloadOverwritten(Push(q, s, a).mem, Push(q, s, b).mem, s.last, at, a, b, cut);
    if !Spoils(q, s, items, a) {
      Unspoilt(q, s, items, a);
      if !Spoils(q, s, items, b) {
        Unspoilt(q, s, items, b);
      }
    }
  }

  /** The new header covers the length of the first item. */
  lemma SpoilsLength(q: Ring, s: State, items: seq<Item>, msg: seq<byte>)
    requires Ends(q, s, items) && Accepts(q, s, |msg| + HEADER)
    requires var at := Slot(q, s, |msg| + HEADER);
      at < s.first <= at + WORD && |msg| < 256 && items[0].msg != []
    ensures Spoils(q, s, items, msg)
  {
    hide Spoils, Push, Word, Laid, Messages, Slot, Cut, InBounds, Accepts;
    var at, cut := Slot(q, s, |msg| + HEADER), Cut(q, s, |msg| + HEADER);
    PushLays(q, s, msg);
    LengthCleared(Push(q, s, msg).mem, s.first, s.last, at, msg, cut);
    if !Spoils(q, s, items, msg) {
      Unspoilt(q, s, items, msg);
    }
  }

  /** The new item covers the link of the first of several items. */
  lemma SpoilsLink(q: Ring, s: State, items: seq<Item>, msg: seq<byte>)
    requires Ends(q, s, items) && |items| > 1 && Accepts(q, s, |msg| + HEADER)
    requires forall k :: 0 <= k < |msg| ==> msg[k] == 0
    requires var at, cut := Slot(q, s, |msg| + HEADER), Cut(q, s, |msg| + HEADER);
      at <= s.first <= at + WORD && s.first <= at + cut
    ensures Spoils(q, s, items, msg)
  {
    hide Spoils, Push, Word, Laid, Messages, Slot, Cut, InBounds, Accepts;
    var at, cut := Slot(q, s, |msg| + HEADER), Cut(q, s, |msg| + HEADER);
    PushLays(q, s, msg);
    LinkCleared(Push(q, s, msg).mem, s.first, s.last, at, msg, cut);
    if !Spoils(q, s, items, msg) {
      Unspoilt(q, s, items, msg);
    }
  }

  /** The new item lies on the only one, which then leads to itself. */
  lemma SpoilsSelf(q: Ring, s: State, items: seq<Item>, msg: seq<byte>)
    requires Ends(q, s, items) && |items| == 1 && Accepts(q, s, |msg| + HEADER)
    requires Slot(q, s, |msg| + HEADER) == s.first
    ensures Spoils(q, s, items, msg)
  {
    if !Spoils(q, s, items, msg) {
      Unspoilt(q, s, items, msg);
    }
  }

  /** A push that hits the first item spoils the queue for some message of its length. */
  lemma DamageFirst(q: Ring, s: State, items: seq<Item>, len: nat)
    requires Represents(q, s, items) && items != [] && items[0].msg != [] && len > 0
    requires HitsFirst(q, s, len + HEADER)
    ensures InBounds(q, s) && (Spoils(q, s, items, Fill(len, 0)) || Spoils(q, s, items, Fill(len, 1)))
  {
    HeadersApart(q, s, items);
    HitGeometry(q, s, len + HEADER);
    hide Represents, Spoils, Accepts, InBounds, Slot, Cut, Wraps, Restarts;
    var at, a, b := Slot(q, s, len + HEADER), Fill(len, 0), Fill(len, 1);
    if at + WORD < s.first {
      SpoilsOneOf(q, s, items, a, b, if at + HEADER < s.first then s.first else at + HEADER);
    } else if Restarts(q, s, len + HEADER) {
      SpoilsLength(q, s, items, a);
    } else if |items| > 1 {
      SpoilsLink(q, s, items, a);
    } else if at == s.first {
      SpoilsSelf(q, s, items, a);
    } else {
      SpoilsSingle(q, s, items, a, b);
    }
  }

  // ---------------------------------------------------------------- damage to the last item

  /** The head is inside the last item only after a restart, and what is written there lies in front of
      the first item. */
  lemma InsideIsLag(q: Ring, s: State, items: seq<Item>, n: nat)
    requires Represents(q, s, items) && items != [] && HEADER <= n
    requires Accepts(q, s, n) && HeadInLast(q, s) && !HitsFirst(q, s, n)
    ensures |items| >= 2 && HeadLags(q.size, items, s.head - q.start) && items[|items| - 1].pos == q.size
    ensures !Wraps(q, s, n) && s.last == q.start
  {
    hide Word;
    var k := |items| - 1;
    assert ItemHolds(q, s.mem, items[k], NextAddress(q, items, k));
    hide ItemHolds;
    Window(q.size, items, k);
    Window(q.size, items, 0);
    if s.first == q.start {
      StartIsBarrier(q, s, n);
    }
    if HeadLags(q.size, items, s.head - q.start) {
      LagIsInside(q, s, items);
    }
  }

  /** The bytes of a push in front of the first item. */
  lemma LagBytes(q: Ring, s: State, msg: seq<byte>)
    requires InBounds(q, s) && s.first != NULL && Accepts(q, s, |msg| + HEADER) && !Wraps(q, s, |msg| + HEADER)
    requires s.last == q.start < s.head
    ensures |Push(q, s, msg).mem| == |s.mem| && Push(q, s, msg).first == s.first
    ensures forall x {:trigger Push(q, s, msg).mem[x]} :: s.first <= x < q.End() ==> Push(q, s, msg).mem[x] == s.mem[x]
    ensures Push(q, s, msg).mem[s.head + HEADER - 1] == 0
  {
    hide Encode, Word;
    PushLays(q, s, msg);
    assert Push(q, s, msg).mem[s.head + (HEADER - 1)] == ItemByte(s.head, msg, HEADER - 1);
    hide Laid;
    HeaderWritten(s.mem, s.head, |msg|);
    hide AddItem;
  }

  /** The items in front of the last one stay as they are. */
  lemma EarlierKept(q: Ring, m: seq<byte>, r: seq<byte>, items: seq<Item>, k: nat)
    requires Layout(q.size, items) && k + 1 < |items| && items[|items| - 1].pos == q.size
    requires |m| == |r| && q.End() <= |m| && ItemHolds(q, m, items[k], NextAddress(q, items, k))
    requires forall x {:trigger r[x]} :: Address(q, items[0].pos) <= x < q.End() ==> r[x] == m[x]
    ensures ItemHolds(q, r, items[k], NextAddress(q, items, k))
  {
    hide Word, ItemHolds;
    Window(q.size, items, k);
    ItemKept(q, m, r, items[k], NextAddress(q, items, k));
  }

  /** Draining gets to item `k` if the items in front of it are linked. */
  lemma {:induction false} DrainsTo(q: Ring, t: State, items: seq<Item>, queue: seq<seq<byte>>, k: nat)
    requires q.End() <= |t.mem| && k < |items| && k < |queue| && Drains(q, t, queue)
    requires t.first == Address(q, items[0].pos)
    requires forall i {:trigger items[i]} :: 0 <= i < k ==> ItemHolds(q, t.mem, items[i], NextAddress(q, items, i))
    ensures Drains(q, t.(first := Address(q, items[k].pos)), queue[k..])
  {
    hide ItemHolds, Word, Drains;
    if k == 0 {
      assert queue[0..] == queue;
    } else {
      DrainsTo(q, t, items, queue, k - 1);
      ItemLink(q, t.mem, items[k - 1], Address(q, items[k].pos));
      hide Address;
      DrainsFirst(q, t.(first := Address(q, items[k - 1].pos)), queue[k - 1..]);
      assert queue[k - 1..][1..] == queue[k..];
    }
  }

  lemma ItemLink(q: Ring, m: seq<byte>, item: Item, next: nat)
    requires q.End() <= |m| && ItemHolds(q, m, item, next)
    ensures Address(q, item.pos) + HEADER <= |m| && Word(m, Address(q, item.pos) + WORD) == next
  {
  }

  /** The last byte of a message in one piece. */
  lemma DrainsLastByte(q: Ring, s: State, queue: seq<seq<byte>>)
    requires queue != [] && Drains(q, s, queue) && queue[0] != [] && s.first + HEADER + |queue[0]| <= q.End()
    ensures var x := s.first + HEADER + |queue[0]| - 1; x < |s.mem| && s.mem[x] == queue[0][|queue[0]| - 1]
  {
    var out := Pop(q, s, |queue[0]|).out;
    assert out == queue[0];
  }

  /** Draining gets to an item at the start if only bytes in front of the first one have changed. */
  lemma DrainsToLast(q: Ring, m: seq<byte>, t: State, items: seq<Item>, queue: seq<seq<byte>>)
    requires Layout(q.size, items) && |items| >= 2 && items[|items| - 1].pos == q.size && q.End() <= |m|
    requires forall i {:trigger items[i]} :: 0 <= i < |items| ==> ItemHolds(q, m, items[i], NextAddress(q, items, i))
    requires |m| == |t.mem| && t.first == Address(q, items[0].pos) && |queue| > |items| && Drains(q, t, queue)
    requires forall x {:trigger t.mem[x]} :: t.first <= x < q.End() ==> t.mem[x] == m[x]
    ensures Drains(q, t.(first := q.start), queue[|items| - 1..])
  {
    hide Word, ItemHolds, Drains, Layout;
    var k := |items| - 1;
    forall i | 0 <= i < k ensures ItemHolds(q, t.mem, items[i], NextAddress(q, items, i)) {
      EarlierKept(q, m, t.mem, items, i);
    }
    DrainsTo(q, t, items, queue, k);
  }

  lemma RepresentsParts(q: Ring, s: State, items: seq<Item>)
    requires Represents(q, s, items) && items != []
    ensures InBounds(q, s) && s.first != NULL && Layout(q.size, items) && s.first == Address(q, items[0].pos)
    ensures forall i {:trigger items[i]} :: 0 <= i < |items| ==>
      ItemHolds(q, s.mem, items[i], NextAddress(q, items, i))
  {
  }

  lemma QueueLast(items: seq<Item>, msg: seq<byte>)
    requires items != []
    ensures |Messages(items) + [msg]| == |items| + 1
    ensures var queue := (Messages(items) + [msg])[|items| - 1..]; queue != [] && queue[0] == items[|items| - 1].msg
  {
  }

  lemma LastInside(q: Ring, s: State, items: seq<Item>)
    requires Represents(q, s, items) && |items| >= 2 && HeadLags(q.size, items, s.head - q.start)
    ensures InBounds(q, s) && s.first != NULL && q.start < s.first && s.first + HEADER <= q.End()
    ensures q.start + |items[|items| - 1].msg| + HEADER <= s.first && s.head == q.start + |items[|items| - 1].msg|
  {
    hide ItemHolds;
    Window(q.size, items, 0);
    LagIsInside(q, s, items);
  }

  /** A push that starts inside the last item clears the last byte of the message there. */
  lemma DamageLast(q: Ring, s: State, items: seq<Item>, msg: seq<byte>)
    requires Represents(q, s, items) && items != [] && Accepts(q, s, |msg| + HEADER)
    requires HeadInLast(q, s) && !HitsFirst(q, s, |msg| + HEADER)
    requires var last := items[|items| - 1].msg; last != [] && last[|last| - 1] != 0
    ensures Spoils(q, s, items, msg)
  {
    InsideIsLag(q, s, items, |msg| + HEADER);
    LastInside(q, s, items);
    RepresentsParts(q, s, items);
    hide Represents, HeadInLast, HitsFirst, HeadLags, ItemHolds, Layout, NextAddress;
    QueueLast(items, msg);
    LastCleared(q, s, items, msg, Messages(items) + [msg]);
  }

  lemma LastCleared(q: Ring, s: State, items: seq<Item>, msg: seq<byte>, queue: seq<seq<byte>>)
    requires InBounds(q, s) && Accepts(q, s, |msg| + HEADER) && !Wraps(q, s, |msg| + HEADER)
    requires Layout(q.size, items) && |items| >= 2 && items[|items| - 1].pos == q.size
    requires forall i {:trigger items[i]} :: 0 <= i < |items| ==>
      ItemHolds(q, s.mem, items[i], NextAddress(q, items, i))
    requires s.first == Address(q, items[0].pos) && s.last == q.start && s.first + HEADER <= q.End()
    requires |queue| == |items| + 1 && queue[|items| - 1..][0] == items[|items| - 1].msg
    requires var last := items[|items| - 1].msg;
      && last != [] && last[|last| - 1] != 0
      && s.head == q.start + |last| && q.start + |last| + HEADER <= s.first
    ensures !Drains(q, Push(q, s, msg), queue)
  {
    hide Push, Drains, Accepts, Wraps, ItemHolds, Layout, Address;
    LagBytes(q, s, msg);
    var t := Push(q, s, msg);
    if Drains(q, t, queue) {
      DrainsToLast(q, s.mem, t, items, queue);
      DrainsLastByte(q, t.(first := q.start), queue[|items| - 1..]);
    }
  }

  /** No message is empty or ends in a zero, so that damage to any of them shows. */
  ghost predicate Solid(queue: seq<seq<byte>>) {
    forall k {:trigger queue[k]} :: 0 <= k < |queue| ==> queue[k] != [] && queue[k][|queue[k]| - 1] != 0
  }

  /** One push of `len` bytes into a queue of solid messages: for every message of that length the queue
      still drains, with the message behind the others if it was accepted, if and only if the push does
      not damage. */
  lemma PushKeepsIff(q: Ring, s: State, items: seq<Item>, len: nat)
    requires Represents(q, s, items) && Solid(Messages(items)) && len > 0
    ensures !Damages(q, s, len + HEADER) <==>
      forall msg {:trigger Push(q, s, msg)} :: |msg| == len ==>
        Drains(q, Push(q, s, msg), if Accepts(q, s, len + HEADER) then Messages(items) + [msg] else Messages(items))
  {
    if !Damages(q, s, len + HEADER) {
      forall msg | |msg| == len
        ensures Drains(q, Push(q, s, msg),
          if Accepts(q, s, len + HEADER) then Messages(items) + [msg] else Messages(items))
      {
        PushDrains(q, s, items, msg);
      }
    } else {
      var msg := DamageSpoils(q, s, items, len);
      assert !Drains(q, Push(q, s, msg), Messages(items) + [msg]);
    }
  }

  lemma PushDrains(q: Ring, s: State, items: seq<Item>, msg: seq<byte>)
    requires Represents(q, s, items) && !Damages(q, s, |msg| + HEADER)
    ensures Represents(q, Push(q, s, msg), PushedItems(q, s, items, msg))
    ensures Drains(q, Push(q, s, msg),
      if Accepts(q, s, |msg| + HEADER) then Messages(items) + [msg] else Messages(items))
  {
    RepresentsInBounds(q, s, items);
    hide Represents, Push, Drains, Messages, Damages;
    PushRefines(q, s, items, msg);
    RepresentedDrains(q, Push(q, s, msg), PushedItems(q, s, items, msg));
  }

  lemma SolidEnds(items: seq<Item>)
    requires Solid(Messages(items)) && items != []
    ensures items[0].msg != []
    ensures var last := items[|items| - 1].msg; last != [] && last[|last| - 1] != 0
  {
    var queue := Messages(items);
    assert queue[0] == items[0].msg && queue[|items| - 1] == items[|items| - 1].msg;
  }

  lemma DamageSpoils(q: Ring, s: State, items: seq<Item>, len: nat) returns (msg: seq<byte>)
    requires Represents(q, s, items) && Solid(Messages(items)) && len > 0 && Damages(q, s, len + HEADER)
    ensures |msg| == len && Accepts(q, s, len + HEADER) && Spoils(q, s, items, msg)
  {
    assert items != [];
    SolidEnds(items);
    hide Represents, Spoils, Messages, Accepts, HitsFirst, HeadInLast, Solid, InBounds;
    msg := Fill(len, 0);
    if HitsFirst(q, s, len + HEADER) {
      DamageFirst(q, s, items, len);
      if !Spoils(q, s, items, msg) {
        msg := Fill(len, 1);
      }
    } else {
      DamageLast(q, s, items, msg);
    }
  }

  // ---------------------------------------------------------------- all runs

  datatype Op = PushOp(msg: seq<byte>) | PopOp(room: nat)

  /** Starting from the queue of byte strings `queue`, every call returns what the queue would, and
      before and after every call the ring drains to exactly that queue. */
  ghost predicate Faithful(q: Ring, s: State, queue: seq<seq<byte>>, ops: seq<Op>)
    decreases |ops|
  {
    && InBounds(q, s) && Drains(q, s, queue)
    && (ops != [] ==>
          match ops[0]
          case PushOp(msg) =>
            Faithful(q, Push(q, s, msg), if Accepts(q, s, |msg| + HEADER) then queue + [msg] else queue, ops[1..])
          case PopOp(room) =>
            && PopReads(q, s, room)
            && var p := Pop(q, s, room);
               if queue != [] && |queue[0]| <= room then
                 p.len == |queue[0]| && p.out == queue[0] && Faithful(q, p.next, queue[1..], ops[1..])
               else
                 p.len == 0 && p.out == [] && Faithful(q, p.next, queue, ops[1..]))
  }

  /** No push of the run damages. */
  ghost predicate NoDamage(q: Ring, s: State, ops: seq<Op>)
    decreases |ops|
  {
    && InBounds(q, s)
    && (ops != [] ==>
          match ops[0]
          case PushOp(msg) => !Damages(q, s, |msg| + HEADER) && NoDamage(q, Push(q, s, msg), ops[1..])
          case PopOp(room) => PopReads(q, s, room) && NoDamage(q, Pop(q, s, room).next, ops[1..]))
  }

  /** Every run without a damaging push is a run of a queue of byte strings. */
  lemma {:induction false} FifoRefinesQueue(q: Ring, s: State, items: seq<Item>, ops: seq<Op>)
    requires Represents(q, s, items) && NoDamage(q, s, ops)
    ensures Faithful(q, s, Messages(items), ops)
    decreases |ops|
  {
    RepresentedDrains(q, s, items);
    hide Represents, Push, Pop, Damages, Messages, Accepts, PopReads, Drains;
    if ops != [] {
      match ops[0]
      case PushOp(msg) =>
        PushRefines(q, s, items, msg);
        FifoRefinesQueue(q, Push(q, s, msg), PushedItems(q, s, items, msg), ops[1..]);
      case PopOp(room) =>
        PopRefines(q, s, items, room);
        QueueEmpty(items);
        FifoRefinesQueue(q, Pop(q, s, room).next, PoppedItems(q.size, items, room), ops[1..]);
    }
  }

  lemma QueueEmpty(items: seq<Item>)
    ensures |Messages(items)| == |items| && (items != [] ==> Messages(items)[0] == items[0].msg)
  {
  }

  predicate SameCall(a: Op, b: Op) {
    match (a, b)
    case (PushOp(msg), PushOp(other)) => |msg| == |other|
    case (PopOp(room), PopOp(other)) => room == other
    case _ => false
  }

  /** The same calls with other messages of the same lengths. */
  predicate SameShape(a: seq<Op>, b: seq<Op>) {
    |a| == |b| && forall k {:trigger a[k]} {:trigger b[k]} :: 0 <= k < |a| ==> SameCall(a[k], b[k])
  }

  /** The items lie at the same places. */
  ghost predicate SamePlaces(a: seq<Item>, b: seq<Item>) {
    |a| == |b| && forall k {:trigger a[k]} {:trigger b[k]} :: 0 <= k < |a| ==>
      a[k].pos == b[k].pos && |a[k].msg| == |b[k].msg|
  }

  /** Two states that differ in the contents of the messages alone. */
  ghost predicate Alike(q: Ring, s: State, items: seq<Item>, r: State, others: seq<Item>) {
    && Represents(q, s, items) && Represents(q, r, others) && SamePlaces(items, others)
    && s.first == r.first && s.last == r.last && s.head == r.head
  }

  lemma AlikeDamages(q: Ring, s: State, items: seq<Item>, r: State, others: seq<Item>, n: nat)
    requires Alike(q, s, items, r, others)
    ensures Accepts(q, s, n) == Accepts(q, r, n) && Damages(q, s, n) == Damages(q, r, n)
  {
    hide Word;
    if items != [] {
      var k := |items| - 1;
      assert ItemHolds(q, s.mem, items[k], NextAddress(q, items, k));
      assert ItemHolds(q, r.mem, others[k], NextAddress(q, others, k));
    }
  }

  lemma PushPointers(q: Ring, s: State, r: State, a: seq<byte>, b: seq<byte>)
    requires InBounds(q, s) && InBounds(q, r) && |a| == |b|
    requires s.first == r.first && s.last == r.last && s.head == r.head
    ensures var t, u := Push(q, s, a), Push(q, r, b); t.first == u.first && t.last == u.last && t.head == u.head
  {
    hide WholeItem, SplitItem, PutWord;
  }

  lemma PushAlike(q: Ring, s: State, items: seq<Item>, r: State, others: seq<Item>, a: seq<byte>, b: seq<byte>)
    requires Alike(q, s, items, r, others) && |a| == |b| && !Damages(q, s, |a| + HEADER)
    ensures Alike(q, Push(q, s, a), PushedItems(q, s, items, a), Push(q, r, b), PushedItems(q, r, others, b))
  {
    AlikeDamages(q, s, items, r, others, |a| + HEADER);
    RepresentsInBounds(q, s, items);
    RepresentsInBounds(q, r, others);
    hide Represents, Damages, Push, Messages, Accepts, Wraps, Restarts, Slot;
    PushRefines(q, s, items, a);
    PushRefines(q, r, others, b);
    PushPointers(q, s, r, a, b);
    PlacesAppend(q, s, items, r, others, a, b);
  }

  lemma PlacesAppend(q: Ring, s: State, items: seq<Item>, r: State, others: seq<Item>, a: seq<byte>, b: seq<byte>)
    requires InBounds(q, s) && InBounds(q, r) && |a| == |b| && SamePlaces(items, others)
    requires s.first == r.first && s.last == r.last && s.head == r.head
    ensures SamePlaces(PushedItems(q, s, items, a), PushedItems(q, r, others, b))
  {
  }

  lemma PopAlike(q: Ring, s: State, items: seq<Item>, r: State, others: seq<Item>, room: nat)
    requires Alike(q, s, items, r, others) && PopReads(q, s, room) && PopReads(q, r, room)
    ensures Alike(q, Pop(q, s, room).next, PoppedItems(q.size, items, room),
      Pop(q, r, room).next, PoppedItems(q.size, others, room))
  {
    if items != [] {
      FirstLinks(q, s, items);
      FirstLinks(q, r, others);
      assert SamePlaces(items, others) && items[0].pos == others[0].pos && |items[0].msg| == |others[0].msg|;
      assert |items| > 1 ==> items[1].pos == others[1].pos;
    }
    hide Represents, Word, PopReads, Messages;
    PopRefines(q, s, items, room);
    PopRefines(q, r, others, room);
    PlacesRest(q.size, items, others, room);
  }

  lemma FirstLinks(q: Ring, s: State, items: seq<Item>)
    requires Represents(q, s, items) && items != []
    ensures s.first + HEADER <= |s.mem|
    ensures Word(s.mem, s.first) == |items[0].msg| && Word(s.mem, s.first + WORD) == NextAddress(q, items, 0)
  {
    RepresentsParts(q, s, items);
    hide Represents, Layout, Word, NextAddress;
    assert ItemHolds(q, s.mem, items[0], NextAddress(q, items, 0));
  }

  lemma PlacesRest(size: nat, items: seq<Item>, others: seq<Item>, room: nat)
    requires SamePlaces(items, others)
    ensures SamePlaces(PoppedItems(size, items, room), PoppedItems(size, others, room))
  {
    if items != [] {
      var a, b := items[1..], others[1..];
      assert forall k {:trigger a[k]} {:trigger b[k]} :: 0 <= k < |a| ==> a[k] == items[k + 1] && b[k] == others[k + 1];
    }
  }

  lemma ShapeTail(a: seq<Op>, b: seq<Op>)
    requires SameShape(a, b) && a != []
    ensures b != [] && SameShape(a[1..], b[1..])
    ensures SameCall(a[0], b[0])
  {
  }

  /** Whether a run damages depends only on the lengths of its messages. */
  lemma {:induction false} ShapeDecides(q: Ring, s: State, items: seq<Item>, r: State, others: seq<Item>,
      a: seq<Op>, b: seq<Op>)
    requires Alike(q, s, items, r, others) && SameShape(a, b) && NoDamage(q, s, a)
    ensures NoDamage(q, r, b)
    decreases |a|
  {
    RepresentsInBounds(q, r, others);
    PopRefinesReads(q, r, others);
    if a != [] {
      ShapeTail(a, b);
      hide SameShape, Alike, Push, Pop, Damages, PopReads, PushedItems, PoppedItems, InBounds;
      match a[0]
      case PushOp(msg) =>
        AlikeDamages(q, s, items, r, others, |msg| + HEADER);
        PushAlike(q, s, items, r, others, msg, b[0].msg);
        ShapeDecides(q, Push(q, s, msg), PushedItems(q, s, items, msg), Push(q, r, b[0].msg),
          PushedItems(q, r, others, b[0].msg), a[1..], b[1..]);
      case PopOp(room) =>
        PopAlike(q, s, items, r, others, room);
        ShapeDecides(q, Pop(q, s, room).next, PoppedItems(q.size, items, room), Pop(q, r, room).next,
          PoppedItems(q.size, others, room), a[1..], b[1..]);
    }
  }

  lemma PopRefinesReads(q: Ring, s: State, items: seq<Item>)
    requires Represents(q, s, items)
    ensures forall room: nat :: PopReads(q, s, room)
  {
    forall room: nat ensures PopReads(q, s, room) {
      PopRefines(q, s, items, room);
    }
  }

  /** Every push has at least one byte: 0 is the return value of a refused push. */
  predicate PushesBytes(ops: seq<Op>) {
    forall k {:trigger ops[k]} :: 0 <= k < |ops| && ops[k].PushOp? ==> ops[k].msg != []
  }

  /** A run with a damaging push, with other messages of the same lengths, goes wrong. */
  lemma {:induction false} DamagedRun(q: Ring, s: State, items: seq<Item>, ops: seq<Op>) returns (other: seq<Op>)
    requires Represents(q, s, items) && Solid(Messages(items)) && PushesBytes(ops) && !NoDamage(q, s, ops)
    ensures SameShape(ops, other) && !Faithful(q, s, Messages(items), other)
    decreases |ops|
  {
    RepresentsInBounds(q, s, items);
    assert ops != [];
    match ops[0]
    case PushOp(msg) => other := DamagedPush(q, s, items, ops);
    case PopOp(room) =>
      PopRefines(q, s, items, room);
      QueueEmpty(items);
      SolidRest(Messages(items));
      hide Represents, Pop, Messages, PopReads, Drains, Solid, Damages, InBounds, PoppedItems, SameShape;
      var rest := DamagedRun(q, Pop(q, s, room).next, PoppedItems(q.size, items, room), ops[1..]);
      ShapeCons(ops, ops[0], rest);
      other := [ops[0]] + rest;
  }

  lemma ShapeCons(ops: seq<Op>, op: Op, rest: seq<Op>)
    requires ops != [] && SameShape(ops[1..], rest) && SameCall(ops[0], op)
    ensures SameShape(ops, [op] + rest) && ([op] + rest)[1..] == rest
  {
    var a, b := ops[1..], [op] + rest;
    assert forall k {:trigger ops[k]} :: 0 < k < |ops| ==> ops[k] == a[k - 1] && b[k] == rest[k - 1];
  }

  lemma SolidRest(queue: seq<seq<byte>>)
    requires Solid(queue)
    ensures queue != [] ==> Solid(queue[1..])
  {
  }

  lemma ShapeItself(ops: seq<Op>)
    ensures SameShape(ops, ops)
  {
  }

  /** After another message of the same length the rest of the run damages as well. */
  lemma SafePush(q: Ring, s: State, items: seq<Item>, ops: seq<Op>, msg: seq<byte>)
    requires Represents(q, s, items) && Solid(Messages(items)) && !NoDamage(q, s, ops)
    requires ops != [] && ops[0].PushOp? && |msg| == |ops[0].msg| > 0 && msg[|msg| - 1] != 0
    requires !Damages(q, s, |msg| + HEADER)
    ensures InBounds(q, s)
    ensures var t, next := Push(q, s, msg), PushedItems(q, s, items, msg);
      && Represents(q, t, next) && Solid(Messages(next)) && !NoDamage(q, t, ops[1..])
      && Messages(next) == if Accepts(q, s, |msg| + HEADER) then Messages(items) + [msg] else Messages(items)
  {
    SafePushMessages(q, s, items, msg);
    hide Represents, Push, Damages, Messages, Solid, PushedItems, InBounds;
    var t, next := Push(q, s, msg), PushedItems(q, s, items, msg);
    if NoDamage(q, t, ops[1..]) {
      SafePushRest(q, s, items, ops[1..], msg, ops[0].msg);
    }
  }

  lemma SafePushMessages(q: Ring, s: State, items: seq<Item>, msg: seq<byte>)
    requires Represents(q, s, items) && Solid(Messages(items))
    requires !Damages(q, s, |msg| + HEADER) && msg != [] && msg[|msg| - 1] != 0
    ensures InBounds(q, s)
    ensures var t, next := Push(q, s, msg), PushedItems(q, s, items, msg);
      && Represents(q, t, next) && Solid(Messages(next))
      && Messages(next) == if Accepts(q, s, |msg| + HEADER) then Messages(items) + [msg] else Messages(items)
  {
    RepresentsInBounds(q, s, items);
    hide Represents, Push, Damages, Accepts, Messages, InBounds, PushedItems, Solid;
    PushRefines(q, s, items, msg);
    SolidMore(Messages(items), msg);
  }

  lemma SolidMore(queue: seq<seq<byte>>, msg: seq<byte>)
    requires Solid(queue) && msg != [] && msg[|msg| - 1] != 0
    ensures Solid(queue + [msg])
  {
  }

  lemma SafePushRest(q: Ring, s: State, items: seq<Item>, rest: seq<Op>, msg: seq<byte>, other: seq<byte>)
    requires Represents(q, s, items) && |msg| == |other| && !Damages(q, s, |msg| + HEADER)
    requires NoDamage(q, Push(q, s, msg), rest)
    ensures NoDamage(q, Push(q, s, other), rest)
  {
    RepresentsInBounds(q, s, items);
    ItselfAlike(q, s, items);
    hide Represents, Push, Damages, InBounds, Alike, PushedItems, NoDamage, SameShape;
    ShapeItself(rest);
    PushAlike(q, s, items, s, items, msg, other);
    ShapeDecides(q, Push(q, s, msg), PushedItems(q, s, items, msg), Push(q, s, other),
      PushedItems(q, s, items, other), rest, rest);
  }

  lemma ItselfAlike(q: Ring, s: State, items: seq<Item>)
    requires Represents(q, s, items)
    ensures Alike(q, s, items, s, items)
  {
  }

  lemma {:induction false} DamagedPush(q: Ring, s: State, items: seq<Item>, ops: seq<Op>) returns (other: seq<Op>)
    requires Represents(q, s, items) && Solid(Messages(items)) && PushesBytes(ops) && !NoDamage(q, s, ops)
    requires InBounds(q, s) && ops != [] && ops[0].PushOp?
    ensures SameShape(ops, other) && !Faithful(q, s, Messages(items), other)
    decreases |ops|, 0
  {
    hide Represents, Push, Damages, Drains, Accepts, Messages, SameShape, InBounds, Solid;
    var len := |ops[0].msg|;
    if Damages(q, s, len + HEADER) {
      var msg := DamageSpoils(q, s, items, len);
      ShapeItself(ops[1..]);
      ShapeCons(ops, PushOp(msg), ops[1..]);
      other := [PushOp(msg)] + ops[1..];
    } else {
      var msg := Fill(len, 1);
      var t, next := Push(q, s, msg), PushedItems(q, s, items, msg);
      SafePush(q, s, items, ops, msg);
      hide PushedItems, NoDamage;
      var rest := DamagedRun(q, t, next, ops[1..]);
      ShapeCons(ops, PushOp(msg), rest);
      other := [PushOp(msg)] + rest;
    }
  }

  /** The calls of a run never damage if and only if, whatever the bytes of its messages, every call
      returns what a queue of byte strings would and the ring can be drained to that queue at any time.
      The guards of all pushes can be checked beforehand, from the lengths alone. */
  lemma RunsCorrectIff(q: Ring, s: State, ops: seq<Op>)
    requires Represents(q, s, []) && PushesBytes(ops)
    ensures NoDamage(q, s, ops) <==> forall other :: SameShape(ops, other) ==> Faithful(q, s, [], other)
  {
    assert Messages([]) == [];
    if NoDamage(q, s, ops) {
      forall other | SameShape(ops, other) ensures Faithful(q, s, [], other) {
        ShapeDecides(q, s, [], s, [], ops, other);
        FifoRefinesQueue(q, s, [], other);
      }
    } else {
      var other := DamagedRun(q, s, [], ops);
    }
  }

  /** After a restart behind other items the head is left inside the new item: from then on every push
      is refused or damages that item, until it is the only one, and refuses every push
      (`StartIsBarrier`), and is popped. */
  lemma AfterRestart(q: Ring, s: State, items: seq<Item>, msg: seq<byte>)
    requires Represents(q, s, items) && items != []
    requires var n := |msg| + HEADER; Accepts(q, s, n) && Restarts(q, s, n) && !Damages(q, s, n)
    ensures var t := Push(q, s, msg);
      && Represents(q, t, items + [Item(q.size, msg)]) && HeadInLast(q, t)
      && forall n :: Accepts(q, t, n) ==> Damages(q, t, n)
  {
    RestartHead(q, s, items, msg);
    RepresentsInBounds(q, s, items);
    var t := Push(q, s, msg);
    hide Represents, Push, Damages, HeadLags, PushedItems, Accepts, Restarts;
    PushRefines(q, s, items, msg);
    LagIsInside(q, t, items + [Item(q.size, msg)]);
    hide HeadInLast;
    forall n | Accepts(q, t, n) ensures Damages(q, t, n) {
      InsideDamages(q, t, n);
    }
  }

  lemma RestartHead(q: Ring, s: State, items: seq<Item>, msg: seq<byte>)
    requires Represents(q, s, items) && items != []
    requires var n := |msg| + HEADER; Accepts(q, s, n) && Restarts(q, s, n) && !Damages(q, s, n)
    ensures InBounds(q, s) && PushedItems(q, s, items, msg) == items + [Item(q.size, msg)]
    ensures var t := Push(q, s, msg);
      t.head >= q.start && HeadLags(q.size, items + [Item(q.size, msg)], t.head - q.start)
  {
    RepresentsInBounds(q, s, items);
    RestartPlace(q, s, items, msg);
    hide Represents, Place, Push, Damages, HeadLags, HeadFollows, Accepts, Restarts, NewPos, PushedItems;
    PlaceHead(q, s, items, msg);
  }

  lemma RestartPlace(q: Ring, s: State, items: seq<Item>, msg: seq<byte>)
    requires InBounds(q, s) && s.first != NULL
    requires var n := |msg| + HEADER; Accepts(q, s, n) && Restarts(q, s, n)
    ensures NewPos(q, s, |msg| + HEADER) == q.size && Push(q, s, msg).head == Place(q, s, msg).head
    ensures PushedItems(q, s, items, msg) == items + [Item(q.size, msg)]
  {
    hide Place, PutWord;
  }

  lemma InsideDamages(q: Ring, s: State, n: nat)
    requires InBounds(q, s) && HeadInLast(q, s) && Accepts(q, s, n)
    ensures Damages(q, s, n)
  {
  }

  /** Whatever the head of an empty queue, a message that fits into the buffer with its header is
      accepted; a pop without room leaves it, and one with room returns it and empties the queue. */
  lemma RoundTrip(q: Ring, s: State, msg: seq<byte>, small: nat, room: nat)
    requires Represents(q, s, []) && |msg| + HEADER <= q.size && small < |msg| <= room
    ensures Accepts(q, s, |msg| + HEADER)
    ensures var t := Push(q, s, msg);
      && PopReads(q, t, small) && Pop(q, t, small) == Popped(t, 0, [])
      && PopReads(q, t, room) && Pop(q, t, room).len == |msg| && Pop(q, t, room).out == msg
      && Represents(q, Pop(q, t, room).next, [])
  {
    assert Accepts(q, s, |msg| + HEADER) && !Damages(q, s, |msg| + HEADER);
    var t, items := Push(q, s, msg), PushedItems(q, s, [], msg);
    assert |items| == 1 && items[0].msg == msg;
    hide Represents, Push, Accepts, Damages, Pop;
    PushRefines(q, s, [], msg);
    PopRefines(q, t, items, small);
    PopRefines(q, t, items, room);
  }

  // ---------------------------------------------------------------- a run that goes wrong

  lemma LowByte(m: seq<byte>, a: nat)
    requires a + WORD <= |m|
    ensures Word(m, a) % 256 == m[a]
  {
  }

  /** A message of 42 bytes over an item of 4 bytes that starts 14 bytes behind the head: whatever the bytes
      are, no pop returns that item afterwards. */
  lemma OverrunLoses(q: Ring, t: State, b: seq<byte>, d: seq<byte>, room: nat)
    requires InBounds(q, t) && q.size == 64 && |b| == 4 && |d| == 42
    requires t.first == q.start + 20 && t.last == q.start + 40 && t.head == q.start + 6
    requires PopReads(q, Push(q, t, d), room)
    ensures Pop(q, Push(q, t, d), room).out != b
  {
    hide Push, Word, Encode;
    PushLays(q, t, d);
    var u := Push(q, t, d);
    assert u.mem[t.head + 14] == ItemByte(t.head, d, 14);
    LowByte(u.mem, u.first);
  }

  /** In a ring of 64 bytes with a fresh head: messages of 4, 4 and 14 bytes are pushed, the first of them
      is popped after it was pushed. */
  ghost predicate FourCalls(q: Ring, s: State, a: seq<byte>, b: seq<byte>, c: seq<byte>, t: State) {
    && q.size == 64 && s.head == q.start && |a| == 4 && |b| == 4 && |c| == 14
    && Represents(q, s, [])
    && PopReads(q, Push(q, s, a), 4)
    && var s2 := Pop(q, Push(q, s, a), 4).next;
       InBounds(q, s2) && InBounds(q, Push(q, s2, b)) && t == Push(q, Push(q, s2, b), c)
  }

  /** Then the ring drains to the second and the third message, and a message of 42 bytes passes the
      guards although only 14 bytes are free.  After it no pop returns the second message. */
  lemma OverrunReached(q: Ring, s: State, a: seq<byte>, b: seq<byte>, c: seq<byte>) returns (t: State)
    requires q.size == 64 && s.head == q.start && |a| == 4 && |b| == 4 && |c| == 14 && Represents(q, s, [])
    ensures FourCalls(q, s, a, b, c, t)
    ensures InBounds(q, t) && Drains(q, t, [b, c])
    ensures t.first == q.start + 20 && t.last == q.start + 40 && t.head == q.start + 6
    ensures Accepts(q, t, 42 + HEADER) && Damages(q, t, 42 + HEADER)
    ensures forall d: seq<byte>, room: nat {:trigger Pop(q, Push(q, t, d), room)} ::
              |d| == 42 && PopReads(q, Push(q, t, d), room) ==> Pop(q, Push(q, t, d), room).out != b
  {
    WholePush(q, s, a);
    var t1 := Push(q, s, a);
    var items := [Item(0, a)];
    assert PushedItems(q, s, [], a) == items;
    hide Represents, Push, Drains;
    PopRefines(q, t1, items, 4);
    var t2 := Pop(q, t1, 4).next;
    RepresentsInBounds(q, t2, []);
    WholePush(q, t2, b);
    t := SecondAndThird(q, t2, b, c);
    forall d: seq<byte>, room: nat | |d| == 42 && PopReads(q, Push(q, t, d), room)
      ensures Pop(q, Push(q, t, d), room).out != b
    {
      OverrunLoses(q, t, b, d, room);
    }
  }

  lemma SecondAndThird(q: Ring, s: State, b: seq<byte>, c: seq<byte>) returns (t: State)
    requires q.size == 64 && s.head == q.start + 20 && |b| == 4 && |c| == 14 && Represents(q, s, [])
    ensures InBounds(q, s) && InBounds(q, Push(q, s, b)) && t == Push(q, Push(q, s, b), c)
    ensures InBounds(q, t) && Drains(q, t, [b, c])
    ensures t.first == q.start + 20 && t.last == q.start + 40 && t.head == q.start + 6
    ensures Accepts(q, t, 42 + HEADER)
  {
    WholePush(q, s, b);
    RepresentsInBounds(q, s, []);
    hide Represents, Push, Drains, Messages, Accepts, InBounds, PushedItems;
    var items := [Item(20, b)];
    t := Push(q, s, b);
    RepresentsInBounds(q, t, items);
    Third(q, t, items, c);
    t := Push(q, t, c);
    TwoMessages(b, c);
  }

  lemma TwoMessages(b: seq<byte>, c: seq<byte>)
    ensures Messages([Item(20, b)] + [Item(40, c)]) == [b, c]
  {
    assert [Item(20, b)] + [Item(40, c)] == [Item(20, b), Item(40, c)];
  }

  /** The third message is split behind the second one. */
  lemma Third(q: Ring, s: State, items: seq<Item>, c: seq<byte>)
    requires q.size == 64 && |c| == 14 && |items| == 1 && items[0].pos == 20 && |items[0].msg| == 4
    requires Represents(q, s, items)
    requires s.first == s.last == q.start + 20 && s.head == q.start + 40
    ensures var t := Push(q, s, c);
      && InBounds(q, t) && Drains(q, t, Messages(items + [Item(40, c)]))
      && t.first == q.start + 20 && t.last == q.start + 40 && t.head == q.start + 6 && Accepts(q, t, 42 + HEADER)
  {
    FirstLinks(q, s, items);
    PushPointersAt(q, s, c);
    assert !Damages(q, s, |c| + HEADER);
    assert PushedItems(q, s, items, c) == items + [Item(40, c)];
    hide Represents, Push, Drains, Damages;
    PushDrains(q, s, items, c);
    PushRefines(q, s, items, c);
    RepresentsInBounds(q, Push(q, s, c), items + [Item(40, c)]);
  }

  /** The pointers after a push into an empty queue that does not reach the end of the buffer. */
  lemma WholePush(q: Ring, s: State, msg: seq<byte>)
    requires Represents(q, s, []) && s.head + |msg| + HEADER < q.End()
    ensures var t := Push(q, s, msg);
      && t.first == t.last == s.head && t.head == s.head + |msg| + HEADER
      && Represents(q, t, PushedItems(q, s, [], msg))
      && PushedItems(q, s, [], msg) == [Item(s.head - q.start, msg)]
  {
    hide PutWord, WholeItem, SplitItem;
    assert !Damages(q, s, |msg| + HEADER) && Accepts(q, s, |msg| + HEADER);
    PushRefines(q, s, [], msg);
  }

  /** The pointers after a push behind other items that is split. */
  lemma PushPointersAt(q: Ring, s: State, msg: seq<byte>)
    requires InBounds(q, s) && s.first != NULL && Accepts(q, s, |msg| + HEADER)
    requires Wraps(q, s, |msg| + HEADER) && !Restarts(q, s, |msg| + HEADER)
    ensures var t := Push(q, s, msg);
      && t.first == s.first && t.last == s.head && t.head == q.start + (|msg| + HEADER - (q.End() - s.head))
  {
    hide PutWord, WholeItem, SplitItem;
  }
}
