/** `std::set<std::pair<Timestamp, Timer*>>` as the sorted sequence it iterates
    (muduo/net/TimerQueue.h). */
module SortedEntries {
  const UINTPTR_MAX := 0xffff_ffff_ffff_ffff

  type Address = a: nat | a < UINTPTR_MAX

  datatype Entry = Entry(when: int, timer: Address)

  predicate Less(e: Entry, f: Entry) {
    e.when < f.when || (e.when == f.when && e.timer < f.timer)
  }

  predicate Sorted(entries: seq<Entry>) {
    forall i, j :: 0 <= i < j < |entries| ==> Less(entries[i], entries[j])
  }

  function Insert(entries: seq<Entry>, e: Entry): (r: seq<Entry>)
    requires Sorted(entries) && e !in entries
    ensures Sorted(r)
    ensures forall x :: x in r <==> x == e || x in entries
    ensures r != [] && r[0] == if entries != [] && Less(entries[0], e) then entries[0] else e
  {
    if entries == [] then [e]
    else if Less(e, entries[0]) then
      [e] + entries
    else
      var r := [entries[0]] + Insert(entries[1..], e);
      assert entries == [entries[0]] + entries[1..];
      r
  }

  function Erase(entries: seq<Entry>, e: Entry): (r: seq<Entry>)
    requires Sorted(entries) && e in entries
    ensures Sorted(r)
    ensures forall x :: x in r <==> x != e && x in entries
    ensures r != [] ==> r[0] == entries[0] || Less(entries[0], r[0])
  {
    if entries[0] == e then
      assert entries == [e] + entries[1..];
      entries[1..]
    else
      var r := [entries[0]] + Erase(entries[1..], e);
      assert entries == [entries[0]] + entries[1..];
      r
  }

  /** The search key of `getExpired`: `now` with the greatest pointer value. */
  predicate BeforeSentry(e: Entry, now: int) {
    e.when < now || (e.when == now && e.timer < UINTPTR_MAX)
  }

  /** How many entries lie before `lower_bound` of that key: exactly the due
      ones, as no address reaches the greatest pointer value. */
  function DueCount(entries: seq<Entry>, now: int): (n: nat)
    requires Sorted(entries)
    ensures n <= |entries|
    ensures forall i :: 0 <= i < n ==> entries[i].when <= now
    ensures forall i :: n <= i < |entries| ==> entries[i].when > now
  {
    if entries == [] || !BeforeSentry(entries[0], now) then 0
    else
      var n := DueCount(entries[1..], now);
      assert forall i :: 1 <= i < |entries| ==> entries[i] == entries[1..][i - 1];
      n + 1
  }
}
