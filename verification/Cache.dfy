/** The ARP cache as a value: entries with their queues of waiting frames, and what one call of
    `Ip2MacSearch` does to the whole table (router/ip2mac.c:34-138). */
module Cache {
  import opened Bytes
  import opened Frames

  const OK_TIMEOUT: int := 60
  const NG_TIMEOUT: int := 1
  const GROWTH: nat := 1024
  const MAX_BUCKET: nat := 1024 * 1024
  const MAX_FRAME: nat := 2048
  const TWO_64: int := 0x1_0000_0000_0000_0000

  type U64 = x: int | 0 <= x < 0x1_0000_0000_0000_0000

  /** Arithmetic on `unsigned long`, wrapping round as C's does. */
  function Add64(a: U64, b: nat): U64 { (a + b) % TWO_64 }

  function Sub64(a: U64, b: nat): U64 { (a - b) % TWO_64 }

  datatype Flag = Free | Ok | Ng

  /** A waiting frame; `id` is its rank among all frames ever handed over for sending. */
  datatype Item = Item(id: nat, frame: Frame)

  datatype Entry = Entry(flag: Flag, deviceNo: int, addr: Addr, hwaddr: Mac, lastTime: int,
                         queue: seq<Item>, dno: U64, bytes: U64)
  {
    predicate Live() { flag != Free }

    predicate Stale(now: int) {
      (flag == Ok && now - lastTime > OK_TIMEOUT) || (flag == Ng && now - lastTime > NG_TIMEOUT)
    }
  }

  datatype Table = Table(entries: seq<Entry>, size: nat)

  // ----- the queue of one entry (router/sendBuf.c) -----

  /** `AppendSendData`: refused once more than `MAX_BUCKET` bytes are waiting. */
  function Append(e: Entry, item: Item): Entry {
    if e.bytes > MAX_BUCKET then e
    else e.(queue := e.queue + [item], dno := Add64(e.dno, 1), bytes := Add64(e.bytes, |item.frame|))
  }

  /** `GetSendData` on a non-empty queue. */
  function Get(e: Entry): Entry
    requires e.queue != []
  {
    e.(queue := e.queue[1..], dno := Sub64(e.dno, 1), bytes := Sub64(e.bytes, |e.queue[0].frame|))
  }

  /** `FreeSendData` empties the queue but leaves both counters as they are. */
  function Emptied(e: Entry): Entry { e.(queue := []) }

  function QueueBytes(q: seq<Item>): nat {
    if |q| == 0 then 0 else |q[0].frame| + QueueBytes(q[1..])
  }

  // ----- Ip2MacSearch -----

  /** The scan stops at an entry: it is live, has the address, and is not an unanswered one to be given up. */
  predicate Hit(e: Entry, addr: Addr, mac: Option<Mac>, now: int) {
    e.Live() && e.addr == addr && (mac.Some? || !(e.flag == Ng && now - e.lastTime > NG_TIMEOUT))
  }

  function FirstHit(es: seq<Entry>, addr: Addr, mac: Option<Mac>, now: int, i: nat): (h: nat)
    requires i <= |es|
    ensures i <= h <= |es|
    ensures forall j :: i <= j < h ==> !Hit(es[j], addr, mac, now)
    ensures h < |es| ==> Hit(es[h], addr, mac, now)
    decreases |es| - i
  {
    if i == |es| || Hit(es[i], addr, mac, now) then i else FirstHit(es, addr, mac, now, i + 1)
  }

  function FirstFree(es: seq<Entry>, i: nat): (f: nat)
    requires i <= |es|
    ensures i <= f <= |es|
    ensures forall j :: i <= j < f ==> es[j].Live()
    ensures f < |es| ==> !es[f].Live()
    decreases |es| - i
  {
    if i == |es| || !es[i].Live() then i else FirstFree(es, i + 1)
  }

  /** A stale entry met by the scan is given up together with its queue. */
  function Sweep(e: Entry, now: int): Entry {
    if e.Stale(now) then Emptied(e).(flag := Free) else e
  }

  function Swept(es: seq<Entry>, n: nat, now: int): (r: seq<Entry>)
    requires n <= |es|
    ensures |r| == |es|
  {
    seq(|es|, i requires 0 <= i < |es| => if i < n then Sweep(es[i], now) else es[i])
  }

  /** The entry a search stops at: an OK one is refreshed, and a given MAC is recorded. */
  function Touched(e: Entry, mac: Option<Mac>, now: int): Entry {
    var e' := if e.flag == Ok then e.(lastTime := now) else e;
    if mac.Some? then e'.(hwaddr := mac.value, flag := Ok) else e'
  }

  function Fresh(d: int, addr: Addr, mac: Option<Mac>, now: int): Entry {
    Entry(if mac.Some? then Ok else Ng, d, addr, if mac.Some? then mac.value else ZERO_MAC, now, [], 0, 0)
  }

  /** The table afterwards, the slot returned, and whether the sender thread is asked to drain that slot. */
  datatype Found = Found(table: Table, slot: nat, wake: bool)

  function Search(t: Table, d: int, addr: Addr, mac: Option<Mac>, now: int): (r: Found)
    ensures r.slot < |r.table.entries|
  {
    var n := |t.entries|;
    var hit := FirstHit(t.entries, addr, mac, now, 0);
    var swept := Swept(t.entries, hit, now);
    if hit < n then
      var wake := mac.Some? && t.entries[hit].queue != [];
      Found(t.(entries := swept[hit := Touched(t.entries[hit], mac, now)]), hit, wake)
    else
      var slot := FirstFree(swept, 0);
      if slot < n then Found(t.(entries := swept[slot := Fresh(d, addr, mac, now)]), slot, false)
      else Found(Table(swept + [Fresh(d, addr, mac, now)], if n >= t.size then t.size + GROWTH else t.size), n, false)
  }

  /** Entry `i` is given up by the search. */
  predicate Evicts(t: Table, addr: Addr, mac: Option<Mac>, now: int, i: nat) {
    i < |t.entries| && i < FirstHit(t.entries, addr, mac, now, 0) && t.entries[i].Stale(now)
  }

  // ----- the invariant of one table -----

  predicate GoodItem(x: Item) { WholeHeader(x.frame) && |x.frame| <= MAX_FRAME }

  /** The counters describe the queue of every entry in use; a free entry's counters mean nothing. */
  predicate GoodEntry(e: Entry, d: int) {
    && e.deviceNo == d
    && (forall k :: 0 <= k < |e.queue| ==> GoodItem(e.queue[k]))
    && (e.flag == Free ==> e.queue == [])
    && (e.flag == Ng ==> e.hwaddr == ZERO_MAC)
    && (e.Live() ==> e.dno == |e.queue| && e.bytes == QueueBytes(e.queue) && e.bytes <= MAX_BUCKET + MAX_FRAME)
  }

  predicate UniqueLive(es: seq<Entry>) {
    forall i, j :: 0 <= i < |es| && 0 <= j < |es| && es[i].Live() && es[j].Live() && es[i].addr == es[j].addr ==> i == j
  }

  predicate GoodTable(t: Table, d: int) {
    && (forall i :: 0 <= i < |t.entries| ==> GoodEntry(t.entries[i], d))
    && UniqueLive(t.entries)
    && t.size % GROWTH == 0 && |t.entries| <= t.size < |t.entries| + GROWTH
  }

  const EMPTY: Table := Table([], 0)

  // ----- queues -----

  lemma {:induction false} QueueBytesSnoc(q: seq<Item>, x: Item)
    ensures QueueBytes(q + [x]) == QueueBytes(q) + |x.frame|
  {
    if |q| == 0 {
      assert q + [x] == [x];
    } else {
      QueueBytesSnoc(q[1..], x);
      assert (q + [x])[1..] == q[1..] + [x];
    }
  }

  /** Every waiting frame is at least an Ethernet and an IP header long, so the byte bound also bounds how
      many frames can wait. */
  lemma {:induction false} QueueBytesAtLeast(q: seq<Item>)
    requires forall k :: 0 <= k < |q| ==> GoodItem(q[k])
    ensures QueueBytes(q) >= MIN_IP_FRAME * |q|
  {
    if |q| > 0 { QueueBytesAtLeast(q[1..]); }
  }

  /** Appending and removing keep the counters exact, without wrapping below zero or above 2^64. */
  lemma AppendKeepsGood(e: Entry, d: int, x: Item)
    requires GoodEntry(e, d) && e.Live() && GoodItem(x)
    ensures GoodEntry(Append(e, x), d)
    ensures Append(e, x) == e <==> e.bytes > 1048576
    ensures e.bytes <= 1048576 ==>
      var e' := Append(e, x);
      e'.queue == e.queue + [x] && e'.dno == e.dno + 1 && e'.bytes == e.bytes + |x.frame| <= 1048576 + 2048
  {
    QueueBytesSnoc(e.queue, x);
    QueueBytesAtLeast(e.queue);
  }

  /** `unsigned long` arithmetic, which the counters of free entries may come to. */
  lemma CountersWrap(a: U64, b: U64)
    ensures Add64(a, b) == if a + b > 0xFFFF_FFFF_FFFF_FFFF then a + b - 0x1_0000_0000_0000_0000 else a + b
    ensures Sub64(a, b) == if a < b then a - b + 0x1_0000_0000_0000_0000 else a - b
  {
  }

  lemma GetKeepsGood(e: Entry, d: int)
    requires GoodEntry(e, d) && e.queue != []
    ensures GoodEntry(Get(e), d) && e.Live()
    ensures Get(e).dno == e.dno - 1 && Get(e).bytes == e.bytes - |e.queue[0].frame|
  {
  }

  // ----- the table -----

  /** Slot by slot, what a search does: evicted entries lose their queue, every other queue survives, the
      returned slot holds the touched or fresh entry and all other entries are as before. */
  lemma SearchSlots(t: Table, d: int, addr: Addr, mac: Option<Mac>, now: int)
    requires GoodTable(t, d)
    ensures var r, hit := Search(t, d, addr, mac, now), FirstHit(t.entries, addr, mac, now, 0);
      var es' := r.table.entries;
      && |t.entries| <= |es'| <= |t.entries| + 1
      && (|es'| == |t.entries| + 1 ==> r.slot == |t.entries|)
      && es'[r.slot].Live() && es'[r.slot].addr == addr && (mac.Some? ==> es'[r.slot].flag == Ok)
      && (forall i :: 0 <= i < |t.entries| && i != r.slot ==>
            es'[i] == if Evicts(t, addr, mac, now, i) then t.entries[i].(flag := Free, queue := []) else t.entries[i])
      && (hit < |t.entries| ==> r.slot == hit && es'[hit] == Touched(t.entries[hit], mac, now))
      && (hit == |t.entries| ==> es'[r.slot] == Fresh(d, addr, mac, now))
      && (hit == |t.entries| && r.slot < |t.entries| ==>
            !t.entries[r.slot].Live() || Evicts(t, addr, mac, now, r.slot))
  {
  }

  lemma SearchQueues(t: Table, d: int, addr: Addr, mac: Option<Mac>, now: int)
    requires GoodTable(t, d)
    ensures var es' := Search(t, d, addr, mac, now).table.entries;
      forall i :: 0 <= i < |es'| ==>
        es'[i].queue == if i == |t.entries| || Evicts(t, addr, mac, now, i) then [] else t.entries[i].queue
  {
    SearchSlots(t, d, addr, mac, now);
  }

  /** A slot that holds frames after a search held the same frames for the same address before. */
  lemma SearchAddsNoFrames(t: Table, d: int, addr: Addr, mac: Option<Mac>, now: int, j: nat)
    requires GoodTable(t, d)
    requires j < |Search(t, d, addr, mac, now).table.entries|
    requires Search(t, d, addr, mac, now).table.entries[j].queue != []
    ensures var e' := Search(t, d, addr, mac, now).table.entries[j];
      && j < |t.entries| && !Evicts(t, addr, mac, now, j)
      && e'.queue == t.entries[j].queue && e'.addr == t.entries[j].addr
      && e'.Live() && t.entries[j].Live()
  {
    SearchSlots(t, d, addr, mac, now);
  }

  lemma EntriesStayGood(e: Entry, d: int, addr: Addr, mac: Option<Mac>, now: int)
    requires GoodEntry(e, d)
    ensures GoodEntry(Sweep(e, now), d)
    ensures e.Live() ==> GoodEntry(Touched(e, mac, now), d)
  {
  }

  lemma SearchKeepsEntriesGood(t: Table, d: int, addr: Addr, mac: Option<Mac>, now: int, i: nat)
    requires GoodTable(t, d) && i < |Search(t, d, addr, mac, now).table.entries|
    ensures GoodEntry(Search(t, d, addr, mac, now).table.entries[i], d)
  {
    SearchSlots(t, d, addr, mac, now);
    if i < |t.entries| { EntriesStayGood(t.entries[i], d, addr, mac, now); }
    assert GoodEntry(Fresh(d, addr, mac, now), d);
  }

  lemma SearchKeepsGood(t: Table, d: int, addr: Addr, mac: Option<Mac>, now: int)
    requires GoodTable(t, d)
    ensures GoodTable(Search(t, d, addr, mac, now).table, d)
  {
    var es' := Search(t, d, addr, mac, now).table.entries;
    forall i | 0 <= i < |es'| ensures GoodEntry(es'[i], d) {
      SearchKeepsEntriesGood(t, d, addr, mac, now, i);
    }
    SearchKeepsUnique(t, d, addr, mac, now);
  }

  lemma SearchKeepsUnique(t: Table, d: int, addr: Addr, mac: Option<Mac>, now: int)
    requires GoodTable(t, d)
    ensures UniqueLive(Search(t, d, addr, mac, now).table.entries)
  {
    SearchSlots(t, d, addr, mac, now);
    SearchSole(t, d, addr, mac, now);
  }

  /** After a search the returned slot is the only live one with the address. */
  lemma SearchSole(t: Table, d: int, addr: Addr, mac: Option<Mac>, now: int)
    requires GoodTable(t, d)
    ensures var r := Search(t, d, addr, mac, now);
      forall i :: 0 <= i < |r.table.entries| && r.table.entries[i].Live() && r.table.entries[i].addr == addr ==>
        i == r.slot
  {
  }

  // ----- the table as a map -----

  /** The live entries by address. */
  ghost function Bindings(es: seq<Entry>): (m: map<Addr, Entry>)
    requires UniqueLive(es)
  {
    map i | 0 <= i < |es| && es[i].Live() :: es[i].addr := es[i]
  }

  /** A binding for the address that a search must return rather than replace. */
  ghost predicate Usable(m: map<Addr, Entry>, addr: Addr, mac: Option<Mac>, now: int) {
    addr in m && (mac.Some? || m[addr].flag == Ok || now - m[addr].lastTime <= 1)
  }

  /** A binding too old to be kept: 60 seconds without use for a resolved one, 1 second for an unresolved one. */
  ghost predicate TooOld(e: Entry, now: int) {
    (e.flag == Ok && now - e.lastTime > 60) || (e.flag == Ng && now - e.lastTime > 1)
  }

  /** What becomes of a binding that is returned: a given MAC is recorded and resolves it; the time moves only if it
      was resolved before; the queue and its counters stay. */
  ghost predicate Retained(e: Entry, e': Entry, mac: Option<Mac>, now: int) {
    && e'.flag == (if mac.Some? then Ok else e.flag)
    && e'.hwaddr == (if mac.Some? then mac.value else e.hwaddr)
    && e'.lastTime == (if e.flag == Ok then now else e.lastTime)
    && e'.queue == e.queue && e'.dno == e.dno && e'.bytes == e.bytes
  }

  /** What a new binding looks like: resolved exactly if a MAC is given, and with nothing waiting. */
  ghost predicate Created(e': Entry, mac: Option<Mac>, now: int) {
    && e'.flag == (if mac.Some? then Ok else Ng)
    && e'.hwaddr == (if mac.Some? then mac.value else [0, 0, 0, 0, 0, 0])
    && e'.lastTime == now && e'.queue == [] && e'.dno == 0 && e'.bytes == 0
  }

  /** `Ip2MacSearch` is a map operation. The address is bound afterwards: to its old binding, queue included,
      if that was usable (an OK one always is, however old), and to a fresh one otherwise. No other binding
      changes except that stale ones may disappear; and when a binding is created, all stale ones do. */
  lemma SearchRefinesMap(t: Table, d: int, addr: Addr, mac: Option<Mac>, now: int)
    requires GoodTable(t, d)
    ensures UniqueLive(Search(t, d, addr, mac, now).table.entries)
    ensures var m, r := Bindings(t.entries), Search(t, d, addr, mac, now); var m' := Bindings(r.table.entries);
      && addr in m' && m'[addr] == r.table.entries[r.slot]
      && (Usable(m, addr, mac, now) ==> Retained(m[addr], m'[addr], mac, now))
      && (!Usable(m, addr, mac, now) ==> Created(m'[addr], mac, now))
      && (forall a :: a in m' && a != addr ==> a in m && m'[a] == m[a])
      && (forall a :: a in m && a != addr && !TooOld(m[a], now) ==> a in m')
      && (!Usable(m, addr, mac, now) ==> forall a :: a in m' ==> !TooOld(m'[a], now))
      && (r.wake <==> mac.Some? && addr in m && m[addr].queue != [])
  {
    SearchKeepsUnique(t, d, addr, mac, now);
    SearchBindsAddress(t, d, addr, mac, now);
    SearchKeepsOthers(t, d, addr, mac, now);
    UsableIffHit(t, d, addr, mac, now);
    InsertSweepsAll(t, d, addr, mac, now);
  }

  lemma Bound(es: seq<Entry>, i: nat)
    requires UniqueLive(es) && i < |es| && es[i].Live()
    ensures es[i].addr in Bindings(es) && Bindings(es)[es[i].addr] == es[i]
  {
  }

  lemma SearchBindsAddress(t: Table, d: int, addr: Addr, mac: Option<Mac>, now: int)
    requires GoodTable(t, d) && UniqueLive(Search(t, d, addr, mac, now).table.entries)
    ensures var m, r := Bindings(t.entries), Search(t, d, addr, mac, now); var m' := Bindings(r.table.entries);
      && addr in m' && m'[addr] == r.table.entries[r.slot]
      && m'[addr] == (if Usable(m, addr, mac, now) then Touched(m[addr], mac, now) else Fresh(d, addr, mac, now))
      && (r.wake <==> mac.Some? && addr in m && m[addr].queue != [])
  {
    var r := Search(t, d, addr, mac, now);
    SearchSlots(t, d, addr, mac, now);
    Bound(r.table.entries, r.slot);
    UsableIffHit(t, d, addr, mac, now);
  }

  lemma SearchKeepsOthers(t: Table, d: int, addr: Addr, mac: Option<Mac>, now: int)
    requires GoodTable(t, d) && UniqueLive(Search(t, d, addr, mac, now).table.entries)
    ensures var m, m' := Bindings(t.entries), Bindings(Search(t, d, addr, mac, now).table.entries);
      && (forall a :: a in m' && a != addr ==> a in m && m'[a] == m[a])
      && (forall a :: a in m && a != addr && !TooOld(m[a], now) ==> a in m')
  {
    var es, es' := t.entries, Search(t, d, addr, mac, now).table.entries;
    var m, m' := Bindings(es), Bindings(es');
    forall a | a in m' && a != addr ensures a in m && m'[a] == m[a] {
      var i :| 0 <= i < |es'| && es'[i].Live() && es'[i].addr == a;
      WasThereBefore(t, d, addr, mac, now, i);
      Bound(es, i);
      Bound(es', i);
    }
    forall a | a in m && a != addr && !TooOld(m[a], now) ensures a in m' {
      var i :| 0 <= i < |es| && es[i].Live() && es[i].addr == a;
      Bound(es, i);
      SurvivesSearch(t, d, addr, mac, now, i);
      Bound(es', i);
    }
  }

  lemma WasThereBefore(t: Table, d: int, addr: Addr, mac: Option<Mac>, now: int, i: nat)
    requires GoodTable(t, d) && i < |Search(t, d, addr, mac, now).table.entries|
    requires var e := Search(t, d, addr, mac, now).table.entries[i]; e.Live() && e.addr != addr
    ensures i < |t.entries| && t.entries[i] == Search(t, d, addr, mac, now).table.entries[i]
  {
    SearchSlots(t, d, addr, mac, now);
  }

  lemma InsertSweepsAll(t: Table, d: int, addr: Addr, mac: Option<Mac>, now: int)
    requires GoodTable(t, d) && UniqueLive(Search(t, d, addr, mac, now).table.entries)
    ensures var m' := Bindings(Search(t, d, addr, mac, now).table.entries);
      FirstHit(t.entries, addr, mac, now, 0) == |t.entries| ==> forall a :: a in m' ==> !TooOld(m'[a], now)
  {
    if FirstHit(t.entries, addr, mac, now, 0) == |t.entries| {
      forall i | 0 <= i < |Search(t, d, addr, mac, now).table.entries|
        ensures !TooOld(Search(t, d, addr, mac, now).table.entries[i], now)
      {
        NotStaleAfterInsert(t, d, addr, mac, now, i);
      }
    }
  }

  lemma NotStaleAfterInsert(t: Table, d: int, addr: Addr, mac: Option<Mac>, now: int, i: nat)
    requires GoodTable(t, d) && FirstHit(t.entries, addr, mac, now, 0) == |t.entries|
    requires i < |Search(t, d, addr, mac, now).table.entries|
    ensures !TooOld(Search(t, d, addr, mac, now).table.entries[i], now)
  {
    SearchSlots(t, d, addr, mac, now);
  }

  lemma SurvivesSearch(t: Table, d: int, addr: Addr, mac: Option<Mac>, now: int, i: nat)
    requires GoodTable(t, d) && i < |t.entries|
    requires t.entries[i].Live() && t.entries[i].addr != addr && !TooOld(t.entries[i], now)
    ensures Search(t, d, addr, mac, now).table.entries[i] == t.entries[i]
  {
    SearchSlots(t, d, addr, mac, now);
  }

  lemma UsableIffHit(t: Table, d: int, addr: Addr, mac: Option<Mac>, now: int)
    requires GoodTable(t, d)
    ensures var h := FirstHit(t.entries, addr, mac, now, 0); var m := Bindings(t.entries);
      && (Usable(m, addr, mac, now) <==> h < |t.entries|)
      && (h < |t.entries| ==> m[addr] == t.entries[h])
  {
    var es, h := t.entries, FirstHit(t.entries, addr, mac, now, 0);
    var m := Bindings(es);
    if h < |es| { assert m[es[h].addr] == es[h]; }
    if addr in m {
      var i :| 0 <= i < |es| && es[i].Live() && es[i].addr == addr;
      assert m[es[i].addr] == es[i];
    }
  }

  /** A new binding takes the first slot that is free or whose binding is too old, or else a new slot. */
  lemma InsertTakesFirstSlot(t: Table, d: int, addr: Addr, mac: Option<Mac>, now: int)
    requires GoodTable(t, d) && !Usable(Bindings(t.entries), addr, mac, now)
    ensures var slot := Search(t, d, addr, mac, now).slot;
      && slot <= |t.entries|
      && (forall i :: 0 <= i < slot ==> t.entries[i].Live() && !TooOld(t.entries[i], now))
      && (slot < |t.entries| ==> !t.entries[slot].Live() || TooOld(t.entries[slot], now))
  {
    UsableIffHit(t, d, addr, mac, now);
    FirstFreeSwept(t.entries, now);
  }

  lemma FirstFreeSwept(es: seq<Entry>, now: int)
    ensures var f := FirstFree(Swept(es, |es|, now), 0);
      && (forall i :: 0 <= i < f ==> es[i].Live() && !TooOld(es[i], now))
      && (f < |es| ==> !es[f].Live() || TooOld(es[f], now))
  {
    var swept := Swept(es, |es|, now);
    forall i | 0 <= i < |es| ensures swept[i].Live() <==> es[i].Live() && !TooOld(es[i], now) {
      assert swept[i] == Sweep(es[i], now);
    }
  }

  // ----- high-water mark -----

  function LiveCount(es: seq<Entry>): (n: nat)
    ensures n <= |es|
  {
    if |es| == 0 then 0 else LiveCount(es[..|es| - 1]) + if es[|es| - 1].Live() then 1 else 0
  }

  lemma {:induction false} AllLive(es: seq<Entry>)
    requires forall i :: 0 <= i < |es| ==> es[i].Live()
    ensures LiveCount(es) == |es|
  {
    if |es| > 0 { AllLive(es[..|es| - 1]); }
  }

  /** The table grows only when every slot is live afterwards. */
  lemma GrowsOnlyWhenFull(t: Table, d: int, addr: Addr, mac: Option<Mac>, now: int)
    requires GoodTable(t, d)
    ensures var es' := Search(t, d, addr, mac, now).table.entries;
      |es'| == if LiveCount(es') > |t.entries| then LiveCount(es') else |t.entries|
  {
    var es' := Search(t, d, addr, mac, now).table.entries;
    if |es'| > |t.entries| { AllLive(es'); }
  }
}
