/** Device numbering and lookup of src/usb/vhci.c. */
module Vhci {
  import opened Memory
  import opened Decimal

  const UINT16_MAX: nat := 65535
  const UINT32_LIMIT: nat := 0x1_0000_0000
  /** sizeof(usb_dev_t.busid), and the number of characters compared. */
  const BUSID: nat := 32
  /** sizeof(usb_dev_t.path) */
  const PATH: nat := 256
  /** After so many attempts the numbers start again. */
  const CYCLE: nat := UINT16_MAX * UINT32_LIMIT

  /** The fields of a `usb_dev_t` that registration writes. */
  datatype UsbDev = UsbDev(busnum: nat, devnum: nat, busid: string, path: string)

  /** A `vusb_dev_t` at address `self` for the `usb_dev_t` at address `dev`. */
  datatype VusbDev = VusbDev(self: nat, dev: nat)

  datatype Found = Missing | Found(v: VusbDev)

  /** The handle, with its list as a sequence, and the `usb_dev_t` objects by address. */
  datatype State = State(devices: seq<VusbDev>, lastBusnum: nat, lastDevnum: nat, devs: map<nat, UsbDev>)

  /** A call of `vhci_register_dev`: the device, what the allocator returned for the wrapper, and
      whether the list found memory for a node. */
  datatype Attempt = Attempt(dev: nat, vdev: nat, pushed: bool)

  predicate Succeeds(a: Attempt) { a.vdev != NULL && a.pushed }

  /** The numbers that the next device gets: a carry into the bus number at 65535. */
  function NextDevnum(s: State): nat {
    if s.lastDevnum >= UINT16_MAX then 0 else s.lastDevnum
  }

  function NextBusnum(s: State): nat {
    if s.lastDevnum >= UINT16_MAX then (s.lastBusnum + 1) % UINT32_LIMIT else s.lastBusnum
  }

  /** "/dev/bus/usb/%03d/%03d" */
  function DevicePath(busnum: nat, devnum: nat): string {
    "/dev/bus/usb/" + Padded(Signed(busnum)) + "/" + Padded(Signed(devnum))
  }

  /** The path is its directory, the bus number as an `int`, a slash and the device number. */
  lemma PathSpells(busnum: nat, devnum: nat) returns (i: nat)
    requires busnum < UINT32_LIMIT && devnum < UINT16_MAX
    ensures var s := DevicePath(busnum, devnum);
      && |s| < PATH && 13 <= i < |s| && s[..13] == "/dev/bus/usb/" && s[i] == '/'
      && FillsField(s[13..i], if busnum < 0x8000_0000 then busnum else busnum - 0x1_0000_0000)
      && FillsField(s[i + 1..], devnum)
  {
    var bus, dev := Padded(Signed(busnum)), Padded(Signed(devnum));
    PaddedFills(Signed(busnum));
    PaddedFills(Signed(devnum));
    PaddedLength(Signed(busnum));
    PaddedLength(Signed(devnum));
    i := 13 + |bus|;
    hide Padded, FillsField;
    TextParts("/dev/bus/usb/", bus, dev);
  }

  lemma TextParts(prefix: string, bus: string, dev: string)
    requires |prefix| == 13
    ensures var s, i := prefix + bus + "/" + dev, 13 + |bus|;
      |s| == i + 1 + |dev| && s[..13] == prefix && s[13..i] == bus && s[i] == '/' && s[i + 1..] == dev
  {
  }

  /** `vhci_register_dev` for a device that exists. */
  function Register(s: State, a: Attempt): State
    requires a.dev in s.devs
  {
    var devnum := NextDevnum(s);
    var busnum := NextBusnum(s);
    var busid := if Succeeds(a) then Printed(Pair(busnum, devnum), BUSID) else s.devs[a.dev].busid;
    var path := if Succeeds(a) then Printed(DevicePath(busnum, devnum), PATH) else s.devs[a.dev].path;
    State(if Succeeds(a) then s.devices + [VusbDev(a.vdev, a.dev)] else s.devices,
          busnum, devnum + 1, s.devs[a.dev := UsbDev(busnum, devnum, busid, path)])
  }

  predicate HasNumbers(s: State, v: VusbDev, busnum: nat, devnum: nat) {
    v.dev in s.devs && s.devs[v.dev].busnum == busnum && s.devs[v.dev].devnum == devnum
  }

  predicate HasBusid(s: State, v: VusbDev, busid: string) {
    v.dev in s.devs && SamePrefix(busid, s.devs[v.dev].busid, BUSID)
  }

  /** The last of the devices that `matches` accepts: the scans do not stop at the first one. */
  function LastMatch(devices: seq<VusbDev>, matches: VusbDev -> bool): Found {
    if devices == [] then Missing
    else
      var v := devices[|devices| - 1];
      if matches(v) then Found(v) else LastMatch(devices[..|devices| - 1], matches)
  }

  function NumbersTest(s: State, busnum: nat, devnum: nat): VusbDev -> bool {
    v => HasNumbers(s, v, busnum, devnum)
  }

  function BusidTest(s: State, busid: string): VusbDev -> bool {
    v => HasBusid(s, v, busid)
  }

  /** `vhci_get_device` */
  function GetDevice(s: State, busnum: nat, devnum: nat): Found {
    LastMatch(s.devices, NumbersTest(s, busnum, devnum))
  }

  /** `vhci_find_device` */
  function FindDevice(s: State, busid: string): Found {
    LastMatch(s.devices, BusidTest(s, busid))
  }

  // ---------------------------------------------------------------- all runs of registrations

  /** Where `vhci_init` starts. */
  predicate Initial(s: State) { s.devices == [] && s.lastBusnum == 0 && s.lastDevnum == 0 }

  /** The devices of the run exist. */
  ghost predicate Known(s: State, run: seq<Attempt>) {
    forall i {:trigger run[i]} :: 0 <= i < |run| ==> run[i].dev in s.devs
  }

  /** No device is registered again once it has been registered; after a failure it may be retried. */
  ghost predicate Distinct(s: State, run: seq<Attempt>) {
    && Known(s, run)
    && forall i, j {:trigger run[i], run[j]} ::
         0 <= i < j < |run| && Succeeds(run[i]) ==> run[i].dev != run[j].dev
  }

  ghost function StateAt(s: State, run: seq<Attempt>, k: nat): (t: State)
    requires Known(s, run) && k <= |run|
    ensures Known(t, run)
  {
    if k == 0 then s else Register(StateAt(s, run, k - 1), run[k - 1])
  }

  function BusOf(k: nat): nat { (k / UINT16_MAX) % UINT32_LIMIT }

  function DevOf(k: nat): nat { k % UINT16_MAX }

  /** The counters after `k` attempts. */
  predicate Counted(s: State, k: nat) {
    if k == 0 then s.lastBusnum == 0 && s.lastDevnum == 0
    else s.lastBusnum == BusOf(k - 1) && s.lastDevnum == DevOf(k - 1) + 1
  }

  lemma CountersAdvance(s: State, a: Attempt, k: nat)
    requires Counted(s, k) && a.dev in s.devs
    ensures var t := Register(s, a);
      && Counted(t, k + 1)
      && t.devs[a.dev].busnum == BusOf(k) && t.devs[a.dev].devnum == DevOf(k)
      && (Succeeds(a) ==>
            t.devs[a.dev].busid == Pair(BusOf(k), DevOf(k)) && t.devs[a.dev].path == DevicePath(BusOf(k), DevOf(k)))
  {
    Carry(s, k);
    hide Pair, BusOf, DevOf, NextBusnum, NextDevnum, DevicePath;
    PairLength(BusOf(k), DevOf(k));
    var _ := PathSpells(BusOf(k), DevOf(k));
  }

  lemma Carry(s: State, k: nat)
    requires Counted(s, k)
    ensures NextBusnum(s) == BusOf(k) < UINT32_LIMIT && NextDevnum(s) == DevOf(k) < UINT16_MAX
  {
  }

  /** Device `i` has the numbers of attempt `i`, and its bus id if it was registered. */
  ghost predicate Numbered(s: State, a: Attempt, i: nat) {
    && a.dev in s.devs
    && s.devs[a.dev].busnum == BusOf(i) && s.devs[a.dev].devnum == DevOf(i)
    && (Succeeds(a) ==> s.devs[a.dev].busid == Pair(BusOf(i), DevOf(i)))
  }

  /** No attempt from `i` up to `k` is for the same device again. */
  ghost predicate LatestFor(run: seq<Attempt>, i: nat, k: nat)
    requires i < k <= |run|
  {
    forall j {:trigger run[j]} :: i < j < k ==> run[j].dev != run[i].dev
  }

  lemma {:induction false} CountedAfter(s: State, run: seq<Attempt>, k: nat)
    requires Initial(s) && Known(s, run) && k <= |run|
    ensures Counted(StateAt(s, run, k), k)
  {
    if k > 0 {
      CountedAfter(s, run, k - 1);
      hide Counted, Register, NextBusnum, NextDevnum;
      NumbersAdvance(StateAt(s, run, k - 1), run[k - 1], k - 1);
    }
  }

  lemma {:induction false} NumberedAfter(s: State, run: seq<Attempt>, i: nat, k: nat)
    requires Initial(s) && Known(s, run) && i < k <= |run| && LatestFor(run, i, k)
    ensures Numbered(StateAt(s, run, k), run[i], i)
    decreases k
  {
    var before := StateAt(s, run, k - 1);
    if k == i + 1 {
      CountedAfter(s, run, i);
      hide Counted, Register, Numbered;
      NumbersAdvance(before, run[i], i);
    } else {
      NumberedAfter(s, run, i, k - 1);
      assert run[k - 1].dev != run[i].dev;
      hide Register, Numbered;
      NumbersKept(before, run[k - 1], run[i], i);
    }
  }

  /** Attempt `k` gets bus k / 65535 (as a 32-bit number) and device k mod 65535, no matter how many
      attempts failed for memory, and the device keeps them until it is registered again. */
  lemma NumbersOfAttempt(s: State, run: seq<Attempt>, k: nat)
    requires Initial(s) && Known(s, run) && k <= |run|
    ensures Counted(StateAt(s, run, k), k)
    ensures forall i {:trigger run[i]} :: 0 <= i < k && LatestFor(run, i, k) ==>
      Numbered(StateAt(s, run, k), run[i], i)
  {
    hide Counted, Numbered, LatestFor, StateAt;
    CountedAfter(s, run, k);
    forall i {:trigger run[i]} | 0 <= i < k && LatestFor(run, i, k) ensures Numbered(StateAt(s, run, k), run[i], i) {
      NumberedAfter(s, run, i, k);
    }
  }

  lemma NumbersAdvance(s: State, a: Attempt, k: nat)
    requires Counted(s, k) && a.dev in s.devs
    ensures Counted(Register(s, a), k + 1) && Numbered(Register(s, a), a, k)
  {
    hide Pair, BusOf, DevOf, Counted, NextBusnum, NextDevnum, DevicePath, Printed;
    CountersAdvance(s, a, k);
  }

  lemma NumbersKept(s: State, a: Attempt, b: Attempt, i: nat)
    requires a.dev in s.devs && Numbered(s, b, i) && a.dev != b.dev
    ensures Numbered(Register(s, a), b, i)
  {
    hide Pair, BusOf, DevOf;
  }

  /** Two attempts get the same numbers exactly when a multiple of 65535 * 2^32 lies between them. */
  lemma SameNumbers(i: nat, j: nat)
    requires i <= j
    ensures BusOf(i) == BusOf(j) && DevOf(i) == DevOf(j) <==> (j - i) % CYCLE == 0
  {
  }

  // ---------------------------------------------------------------- what the lookups find

  /** The list entry that attempt `i` leaves. */
  function Entry(run: seq<Attempt>, i: nat): VusbDev
    requires i < |run|
  {
    VusbDev(run[i].vdev, run[i].dev)
  }

  /** The last of the first `k` attempts that succeeded and that `hits` accepts. */
  function LastHit(run: seq<Attempt>, k: nat, hits: nat -> bool): Found
    requires k <= |run|
  {
    if k == 0 then Missing
    else if Succeeds(run[k - 1]) && hits(k - 1) then Found(Entry(run, k - 1))
    else LastHit(run, k - 1, hits)
  }

  function ByNumbers(busnum: nat, devnum: nat): nat -> bool {
    (i: nat) => BusOf(i) == busnum && DevOf(i) == devnum
  }

  function ByText(text: string): nat -> bool {
    (i: nat) => Pair(BusOf(i), DevOf(i)) == text
  }

  /** The list entries that the first `k` attempts leave. */
  function Entries(run: seq<Attempt>, k: nat): seq<VusbDev>
    requires k <= |run|
  {
    if k == 0 then []
    else if Succeeds(run[k - 1]) then Entries(run, k - 1) + [Entry(run, k - 1)]
    else Entries(run, k - 1)
  }

  lemma {:induction false} ListOfEntries(s: State, run: seq<Attempt>, k: nat)
    requires Known(s, run) && k <= |run| && s.devices == []
    ensures StateAt(s, run, k).devices == Entries(run, k)
  {
    if k > 0 {
      ListOfEntries(s, run, k - 1);
      hide Pair, Printed, DevicePath;
    }
  }

  lemma LastOfLonger(devices: seq<VusbDev>, v: VusbDev, matches: VusbDev -> bool)
    ensures LastMatch(devices + [v], matches) == if matches(v) then Found(v) else LastMatch(devices, matches)
  {
    assert (devices + [v])[..|devices|] == devices;
  }

  /** The test accepts the entries of the attempts that `hits` accepts. */
  ghost predicate Selects(run: seq<Attempt>, k: nat, matches: VusbDev -> bool, hits: nat -> bool)
    requires k <= |run|
  {
    forall i {:trigger run[i]} :: 0 <= i < k && Succeeds(run[i]) ==> (matches(Entry(run, i)) <==> hits(i))
  }

  lemma SelectsLast(run: seq<Attempt>, k: nat, matches: VusbDev -> bool, hits: nat -> bool)
    requires 0 < k <= |run| && Selects(run, k, matches, hits)
    ensures Selects(run, k - 1, matches, hits)
    ensures Succeeds(run[k - 1]) ==> (matches(Entry(run, k - 1)) <==> hits(k - 1))
  {
  }

  lemma {:induction false} ScanEntries(run: seq<Attempt>, k: nat, matches: VusbDev -> bool, hits: nat -> bool)
    requires k <= |run| && Selects(run, k, matches, hits)
    ensures LastMatch(Entries(run, k), matches) == LastHit(run, k, hits)
  {
    if k > 0 {
      hide LastMatch, Succeeds, Entry, Selects;
      SelectsLast(run, k, matches, hits);
      ScanEntries(run, k - 1, matches, hits);
      if Succeeds(run[k - 1]) {
        LastOfLonger(Entries(run, k - 1), Entry(run, k - 1), matches);
      }
    }
  }

  /** Scanning the list with a test that accepts the entries of certain attempts. */
  lemma ScanFinds(s: State, run: seq<Attempt>, k: nat, matches: VusbDev -> bool, hits: nat -> bool)
    requires Known(s, run) && k <= |run| && s.devices == [] && Selects(run, k, matches, hits)
    ensures LastMatch(StateAt(s, run, k).devices, matches) == LastHit(run, k, hits)
  {
    ListOfEntries(s, run, k);
    ScanEntries(run, k, matches, hits);
  }

  /** Lookup by numbers finds the last device that was registered with them. */
  lemma GetFindsLastHit(s: State, run: seq<Attempt>, busnum: nat, devnum: nat)
    requires Initial(s) && Distinct(s, run)
    ensures GetDevice(StateAt(s, run, |run|), busnum, devnum) == LastHit(run, |run|, ByNumbers(busnum, devnum))
  {
    var t := StateAt(s, run, |run|);
    NumbersOfAttempt(s, run, |run|);
    ScanFinds(s, run, |run|, NumbersTest(t, busnum, devnum), ByNumbers(busnum, devnum));
  }

  /** Lookup by text, which may be of any length, finds the last device whose numbers it spells,
      although only 32 characters are compared. */
  lemma FindFindsLastHit(s: State, run: seq<Attempt>, text: string)
    requires Initial(s) && Distinct(s, run)
    ensures FindDevice(StateAt(s, run, |run|), text) == LastHit(run, |run|, ByText(text))
  {
    var t := StateAt(s, run, |run|);
    NumbersOfAttempt(s, run, |run|);
    forall i {:trigger run[i]} | 0 <= i < |run| && Succeeds(run[i])
      ensures HasBusid(t, Entry(run, i), text) <==> Pair(BusOf(i), DevOf(i)) == text
    {
      PairLength(BusOf(i), DevOf(i));
      SamePrefixIsEqual(text, Pair(BusOf(i), DevOf(i)), BUSID);
    }
    ScanFinds(s, run, |run|, BusidTest(t, text), ByText(text));
  }

  /** No later attempt that succeeds gets the numbers of attempt `i` again. */
  ghost predicate Unrepeated(run: seq<Attempt>, k: nat, i: nat)
    requires k <= |run|
  {
    forall j {:trigger run[j]} :: i < j < k && Succeeds(run[j]) ==> (j - i) % CYCLE != 0
  }

  lemma {:induction false} LastHitOf(s: State, run: seq<Attempt>, k: nat, i: nat, hits: nat -> bool)
    requires Distinct(s, run) && i < k <= |run| && Succeeds(run[i])
    requires forall j: nat :: i <= j < k ==> (hits(j) <==> (j - i) % CYCLE == 0)
    ensures LastHit(run, k, hits) == Found(Entry(run, i)) <==> Unrepeated(run, k, i)
  {
    assert hits(i);
    if i < k - 1 {
      LastHitOf(s, run, k - 1, i, hits);
      assert run[k - 1].dev != run[i].dev;
    }
  }

  /** Both lookups return exactly the device that attempt `i` registered if and only if no device was
      registered a multiple of 65535 * 2^32 attempts later: so always, up to that many attempts. */
  lemma RegisteredIsFound(s: State, run: seq<Attempt>, i: nat)
    requires Initial(s) && Distinct(s, run) && i < |run| && Succeeds(run[i])
    ensures var t := StateAt(s, run, |run|);
      && (GetDevice(t, BusOf(i), DevOf(i)) == Found(Entry(run, i)) <==> Unrepeated(run, |run|, i))
      && (FindDevice(t, Pair(BusOf(i), DevOf(i))) == Found(Entry(run, i)) <==> Unrepeated(run, |run|, i))
    ensures |run| <= CYCLE ==> Unrepeated(run, |run|, i)
  {
    hide Pair, BusOf, DevOf, StateAt, LastHit, GetDevice, FindDevice, Unrepeated;
    var numbers, text := ByNumbers(BusOf(i), DevOf(i)), ByText(Pair(BusOf(i), DevOf(i)));
    GetFindsLastHit(s, run, BusOf(i), DevOf(i));
    FindFindsLastHit(s, run, Pair(BusOf(i), DevOf(i)));
    forall j: nat | i <= j < |run|
      ensures (numbers(j) <==> (j - i) % CYCLE == 0) && (text(j) <==> (j - i) % CYCLE == 0)
    {
      SameNumbers(i, j);
      if text(j) {
        PairInjective(BusOf(j), DevOf(j), BusOf(i), DevOf(i));
      }
    }
    LastHitOf(s, run, |run|, i, numbers);
    LastHitOf(s, run, |run|, i, text);
    if |run| <= CYCLE {
      ShortRun(run, i);
    }
  }

  lemma ShortRun(run: seq<Attempt>, i: nat)
    requires |run| <= CYCLE && i < |run|
    ensures Unrepeated(run, |run|, i)
  {
    forall j {:trigger run[j]} | i < j < |run| ensures (j - i) % CYCLE != 0 {
      assert 0 < j - i < CYCLE;
    }
  }

  lemma {:induction false} NoHit(run: seq<Attempt>, k: nat, hits: nat -> bool)
    requires k <= |run|
    ensures LastHit(run, k, hits) == Missing <==> forall i: nat :: i < k && hits(i) ==> !Succeeds(run[i])
  {
    if k > 0 {
      NoHit(run, k - 1, hits);
    }
  }

  /** The lookups find something only for the numbers, or the printed numbers, of an attempt that
      succeeded: devices that could not be registered stay unknown. */
  lemma UnregisteredIsMissing(s: State, run: seq<Attempt>, busnum: nat, devnum: nat, text: string)
    requires Initial(s) && Distinct(s, run)
    ensures var t := StateAt(s, run, |run|);
      && (GetDevice(t, busnum, devnum) == Missing <==>
            forall i: nat :: i < |run| && ByNumbers(busnum, devnum)(i) ==> !Succeeds(run[i]))
      && (FindDevice(t, text) == Missing <==>
            forall i: nat :: i < |run| && ByText(text)(i) ==> !Succeeds(run[i]))
  {
    hide GetDevice, FindDevice, StateAt, LastHit, Pair, BusOf, DevOf;
    GetFindsLastHit(s, run, busnum, devnum);
    FindFindsLastHit(s, run, text);
    NoHit(run, |run|, ByNumbers(busnum, devnum));
    NoHit(run, |run|, ByText(text));
  }

  // ---------------------------------------------------------------- devices that are registered again

  /** The latest of the first `k` attempts for the device of attempt `i`. */
  function LatestAttempt(run: seq<Attempt>, i: nat, k: nat): (j: nat)
    requires i < k <= |run|
    ensures i <= j < k && run[j].dev == run[i].dev && LatestFor(run, j, k)
    decreases k
  {
    if run[k - 1].dev == run[i].dev then k - 1 else LatestAttempt(run, i, k - 1)
  }

  /** No attempt from `j` up to `k` registers the same device again. */
  ghost predicate LastSuccessFor(run: seq<Attempt>, j: nat, k: nat)
    requires j < k <= |run|
  {
    forall m {:trigger run[m]} :: j < m < k && Succeeds(run[m]) ==> run[m].dev != run[j].dev
  }

  /** The latest of them that succeeded. */
  function LatestSuccess(run: seq<Attempt>, i: nat, k: nat): (j: nat)
    requires i < k <= |run| && Succeeds(run[i])
    ensures i <= j < k && run[j].dev == run[i].dev && Succeeds(run[j]) && LastSuccessFor(run, j, k)
    decreases k
  {
    if run[k - 1].dev == run[i].dev && Succeeds(run[k - 1]) then k - 1 else LatestSuccess(run, i, k - 1)
  }

  /** The device has the texts of attempt `j`. */
  ghost predicate Named(s: State, a: Attempt, j: nat) {
    && a.dev in s.devs && s.devs[a.dev].busid == Pair(BusOf(j), DevOf(j))
    && s.devs[a.dev].path == DevicePath(BusOf(j), DevOf(j))
  }

  lemma {:induction false} NamedAfter(s: State, run: seq<Attempt>, j: nat, k: nat)
    requires Initial(s) && Known(s, run) && j < k <= |run| && Succeeds(run[j]) && LastSuccessFor(run, j, k)
    ensures Named(StateAt(s, run, k), run[j], j)
    decreases k
  {
    hide Counted, Register, Named, LastSuccessFor, Succeeds;
    var before := StateAt(s, run, k - 1);
    if k == j + 1 {
      CountedAfter(s, run, j);
      NameSet(before, run[j], j);
    } else {
      EarlierSuccess(run, j, k);
      NamedAfter(s, run, j, k - 1);
      NameKept(before, run[k - 1], run[j], j);
    }
  }

  lemma EarlierSuccess(run: seq<Attempt>, j: nat, k: nat)
    requires j + 1 < k <= |run| && LastSuccessFor(run, j, k)
    ensures LastSuccessFor(run, j, k - 1) && (run[k - 1].dev != run[j].dev || !Succeeds(run[k - 1]))
  {
  }

  lemma NameSet(s: State, a: Attempt, k: nat)
    requires Counted(s, k) && a.dev in s.devs && Succeeds(a)
    ensures Named(Register(s, a), a, k)
  {
    hide Pair, BusOf, DevOf, Counted, Succeeds, DevicePath;
    CountersAdvance(s, a, k);
  }

  lemma NameKept(s: State, a: Attempt, b: Attempt, j: nat)
    requires a.dev in s.devs && Named(s, b, j) && (a.dev != b.dev || !Succeeds(a))
    ensures Named(Register(s, a), b, j)
  {
    hide Pair, BusOf, DevOf, Printed, DevicePath;
  }

  /** What the texts of a registered device say, for the latest attempt `k` that registered it: the bus id is
      bus number, dash, device number, in decimal without leading zeros; the path has both in fields of at
      least three characters, the bus number as an `int`.  Later attempts for other devices, and failed
      ones, leave the texts alone. */
  lemma TextsOfDevice(s: State, run: seq<Attempt>, k: nat) returns (i: nat, j: nat)
    requires Initial(s) && Known(s, run) && k < |run| && Succeeds(run[k]) && LastSuccessFor(run, k, |run|)
    ensures run[k].dev in StateAt(s, run, |run|).devs
    ensures var d, bus, dev := StateAt(s, run, |run|).devs[run[k].dev], (k / 65535) % 0x1_0000_0000, k % 65535;
      && i < |d.busid| && d.busid[i] == '-' && Spells(d.busid[..i], bus) && Spells(d.busid[i + 1..], dev)
      && 13 <= j < |d.path| && d.path[..13] == "/dev/bus/usb/" && d.path[j] == '/'
      && FillsField(d.path[13..j], if bus < 0x8000_0000 then bus else bus - 0x1_0000_0000)
      && FillsField(d.path[j + 1..], dev)
  {
    hide Pair, DevicePath, StateAt, Spells, FillsField, LastSuccessFor;
    NamedAfter(s, run, k, |run|);
    DevBound(k);
    i := PairSpells(BusOf(k), DevOf(k));
    j := PathSpells(BusOf(k), DevOf(k));
  }

  /** A registered device answers to the numbers of the latest attempt for it, successful or not. */
  function ByLatestNumbers(run: seq<Attempt>, busnum: nat, devnum: nat): nat -> bool {
    (i: nat) => i < |run| && ByNumbers(busnum, devnum)(LatestAttempt(run, i, |run|))
  }

  /** And to the text of the latest successful one. */
  function ByLatestText(run: seq<Attempt>, text: string): nat -> bool {
    (i: nat) => i < |run| && Succeeds(run[i]) && ByText(text)(LatestSuccess(run, i, |run|))
  }

  /** What both lookups return after any run, with devices registered again and again: the list entry of
      the last successful attempt whose device answers. */
  lemma LookupsAfterAnyRun(s: State, run: seq<Attempt>, busnum: nat, devnum: nat, text: string)
    requires Initial(s) && Known(s, run)
    ensures var t := StateAt(s, run, |run|);
      && GetDevice(t, busnum, devnum) == LastHit(run, |run|, ByLatestNumbers(run, busnum, devnum))
      && FindDevice(t, text) == LastHit(run, |run|, ByLatestText(run, text))
  {
    hide LastHit, LastMatch, StateAt, Pair, BusOf, DevOf, LatestAttempt, LatestSuccess;
    var t := StateAt(s, run, |run|);
    forall i {:trigger run[i]} | 0 <= i < |run| && Succeeds(run[i])
      ensures HasNumbers(t, Entry(run, i), busnum, devnum) <==> ByLatestNumbers(run, busnum, devnum)(i)
      ensures HasBusid(t, Entry(run, i), text) <==> ByLatestText(run, text)(i)
    {
      EntryAnswers(s, run, i, busnum, devnum, text);
    }
    ScanFinds(s, run, |run|, NumbersTest(t, busnum, devnum), ByLatestNumbers(run, busnum, devnum));
    ScanFinds(s, run, |run|, BusidTest(t, text), ByLatestText(run, text));
  }

  lemma EntryAnswers(s: State, run: seq<Attempt>, i: nat, busnum: nat, devnum: nat, text: string)
    requires Initial(s) && Known(s, run) && i < |run| && Succeeds(run[i])
    ensures var t := StateAt(s, run, |run|);
      && (HasNumbers(t, Entry(run, i), busnum, devnum) <==> ByLatestNumbers(run, busnum, devnum)(i))
      && (HasBusid(t, Entry(run, i), text) <==> ByLatestText(run, text)(i))
  {
    hide Pair, BusOf, DevOf, StateAt;
    var t, latest, j := StateAt(s, run, |run|), LatestAttempt(run, i, |run|), LatestSuccess(run, i, |run|);
    NumberedAfter(s, run, latest, |run|);
    assert t.devs[run[i].dev].busnum == BusOf(latest) && t.devs[run[i].dev].devnum == DevOf(latest);
    assert ByLatestNumbers(run, busnum, devnum)(i) <==> ByNumbers(busnum, devnum)(latest);
    NamedAfter(s, run, j, |run|);
    assert ByLatestText(run, text)(i) <==> ByText(text)(j);
    DevBound(j);
    PairLength(BusOf(j), DevOf(j));
    SamePrefixIsEqual(text, Pair(BusOf(j), DevOf(j)), BUSID);
  }

  lemma DevBound(k: nat)
    ensures BusOf(k) < UINT32_LIMIT && DevOf(k) < UINT16_MAX
  {
  }

  /** A device that was registered by attempt `i` and whose latest attempt `j` failed answers to the
      numbers of attempt `j` but to the bus id of attempt `i`; the two agree exactly at the distances at
      which the numbers start again. */
  lemma FailedAgain(s: State, run: seq<Attempt>, i: nat, j: nat)
    requires Initial(s) && Known(s, run) && i < j < |run| && run[i].dev == run[j].dev && LatestFor(run, j, |run|)
    requires Succeeds(run[i]) && LastSuccessFor(run, i, |run|)
    ensures var d := StateAt(s, run, |run|).devs[run[i].dev];
      && d.busnum == BusOf(j) && d.devnum == DevOf(j) && d.busid == Pair(BusOf(i), DevOf(i))
      && (d.busid == Pair(d.busnum, d.devnum) <==> (j - i) % CYCLE == 0)
  {
    hide Pair, BusOf, DevOf, StateAt;
    NumberedAfter(s, run, j, |run|);
    NamedAfter(s, run, i, |run|);
    SameNumbers(i, j);
    if Pair(BusOf(i), DevOf(i)) == Pair(BusOf(j), DevOf(j)) {
      PairInjective(BusOf(i), DevOf(i), BusOf(j), DevOf(j));
    }
  }

  // ---------------------------------------------------------------- vhci_handle_t

  class Handle {
    var devices: seq<VusbDev>
    var lastBusnum: nat
    var lastDevnum: nat
    var devs: map<nat, UsbDev>

    ghost function Now(): State
      reads this
    {
      State(devices, lastBusnum, lastDevnum, devs)
    }

    /** The list leads to devices that exist. */
    ghost predicate Valid()
      reads this
    {
      forall v :: v in devices ==> v.dev in devs
    }

    /** `vhci_init` */
    constructor (devs: map<nat, UsbDev>)
      ensures Initial(Now()) && this.devs == devs && Valid()
    {
      devices, lastBusnum, lastDevnum := [], 0, 0;
      this.devs := devs;
    }

    /** `vhci_register_dev`, given what the two allocations return. */
    method RegisterDev(dev: nat, vdev: nat, pushed: bool) returns (r: int)
      requires Valid() && (dev == NULL || dev in devs)
      modifies this
      ensures Valid()
      ensures dev == NULL ==> r == -1 && Now() == old(Now())
      ensures dev != NULL ==>
        && Now() == Register(old(Now()), Attempt(dev, vdev, pushed))
        && r == if Succeeds(Attempt(dev, vdev, pushed)) then 0 else -1
      ensures dev != NULL && r == -1 ==>
        && devices == old(devices) && dev in devs
        && devs[dev].busid == old(devs)[dev].busid && devs[dev].path == old(devs)[dev].path
      ensures dev != NULL && r == 0 ==> devices == old(devices) + [VusbDev(vdev, dev)]
      ensures forall d :: d in old(devs) && d != dev ==> d in devs && devs[d] == old(devs)[d]
    {
      hide Pair, Printed, DevicePath;
      if dev == NULL {
        return -1;
      }
      if lastDevnum >= UINT16_MAX {
        lastDevnum := 0;
        lastBusnum := (lastBusnum + 1) % UINT32_LIMIT;
      }
      devs := devs[dev := devs[dev].(devnum := lastDevnum)];
      lastDevnum := lastDevnum + 1;
      devs := devs[dev := devs[dev].(busnum := lastBusnum)];
      if vdev == NULL {
        return -1;
      }
      if !pushed {
        return -1;
      }
      devices := devices + [VusbDev(vdev, dev)];
      Name(dev);
      return 0;
    }

    /** The two `snprintf` of `vhci_register_dev`. */
    method Name(dev: nat)
      requires dev in devs
      modifies `devs
      ensures var d := old(devs)[dev];
        devs == old(devs)[dev := UsbDev(d.busnum, d.devnum, Printed(Pair(d.busnum, d.devnum), BUSID),
                                        Printed(DevicePath(d.busnum, d.devnum), PATH))]
    {
      hide Pair, Printed, DevicePath;
      devs := devs[dev := devs[dev].(path := Printed(DevicePath(devs[dev].busnum, devs[dev].devnum), PATH))];
      devs := devs[dev := devs[dev].(busid := Printed(Pair(devs[dev].busnum, devs[dev].devnum), BUSID))];
    }

    /** `vhci_get_device`: the callback overwrites the result at every match. */
    method LookupNumbers(busnum: nat, devnum: nat) returns (found: Found)
      requires Valid()
      ensures found == GetDevice(Now(), busnum, devnum)
    {
      found := Missing;
      ghost var matches := NumbersTest(Now(), busnum, devnum);
      for i := 0 to |devices|
        invariant found == LastMatch(devices[..i], matches)
      {
        var v := devices[i];
        if devs[v.dev].busnum == busnum && devs[v.dev].devnum == devnum {
          found := Found(v);
        }
        assert devices[..i + 1][..i] == devices[..i];
      }
      assert devices[..|devices|] == devices;
    }

    /** `vhci_find_device` */
    method LookupBusid(busid: string) returns (found: Found)
      requires Valid()
      ensures found == FindDevice(Now(), busid)
    {
      found := Missing;
      ghost var matches := BusidTest(Now(), busid);
      for i := 0 to |devices|
        invariant found == LastMatch(devices[..i], matches)
      {
        var v := devices[i];
        if SamePrefix(busid, devs[v.dev].busid, BUSID) {
          found := Found(v);
        }
        assert devices[..i + 1][..i] == devices[..i];
      }
      assert devices[..|devices|] == devices;
    }
  }
}
