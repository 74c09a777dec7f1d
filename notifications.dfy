/**
 * The header's notification dropdown: a set of read notification ids kept in
 * per-browser storage, merged with a static catalog, and the values derived
 * from the merge (unread count, badge text, the three newest entries, and the
 * relative-time label of each entry).
 *
 * Time is integer milliseconds; the current time `now` is a parameter.
 */
module Notifications {
  import opened Wrappers
  import Text

  datatype Category = User | Report | System | Payment | Team

  datatype Notification = Notification(
    id: string,
    title: string,
    message: string,
    timestamp: int,
    isRead: bool,
    category: Category)

  /** Key under which the read ids are stored. */
  const STORAGE_KEY: string := "dashboard-notifications-read"

  const MINUTE_MS: int := 1000 * 60
  const HOUR_MS: int := 1000 * 60 * 60
  const DAY_MS: int := 1000 * 60 * 60 * 24

  /** How many notifications the dropdown lists. */
  const DISPLAY_LIMIT: nat := 3

  // ---------------------------------------------------------------------------
  // Relative time

  /**
   * The label shown under a notification. `localeDate` stands for the
   * browser's `toLocaleDateString()` of the timestamp, used when the entry is
   * two days old or more. Minutes, hours and days are floored; Dafny's `/`
   * with a positive divisor is the floor.
   */
  function FormatRelativeTime(now: int, timestamp: int, localeDate: string): (r: string)
    ensures now - timestamp < MINUTE_MS ==> r == "Just now"
    ensures now - timestamp >= 2 * DAY_MS ==> r == localeDate
  {
    var diff := now - timestamp;
    var minutes := diff / MINUTE_MS;
    var hours := diff / HOUR_MS;
    var days := diff / DAY_MS;
    if minutes < 1 then "Just now"
    else if minutes < 60 then Text.DecimalString(minutes) + " minute" + (if minutes > 1 then "s" else "") + " ago"
    else if hours < 24 then Text.DecimalString(hours) + " hour" + (if hours > 1 then "s" else "") + " ago"
    else if days == 1 then "Yesterday"
    else localeDate
  }

  /** Multiplying by a non-negative number keeps the order. */
  lemma {:induction false} MulMonotone(d: nat, a: int, b: int)
    requires a <= b
    ensures d * a <= d * b
    decreases b - a
  {
    if a < b {
      MulMonotone(d, a + 1, b);
      assert d * (a + 1) == d * a + d;
    }
  }

  /** Floor division from bounds: `x` lies in the `q`-th block of `d`. */
  lemma FloorDiv(x: int, d: nat, q: int)
    requires d > 0 && d * q <= x < d * (q + 1)
    ensures x / d == q
  {
    FloorDivAtLeast(x, d, q);
    var r := x / d;
    if r > q {
      MulMonotone(d, q + 1, r);
    }
  }

  /** At least `q` blocks of `d`: the floored quotient is at least `q`. */
  lemma FloorDivAtLeast(x: int, d: nat, q: int)
    requires d > 0 && d * q <= x
    ensures x / d >= q
  {
    var r := x / d;
    if r < q {
      MulMonotone(d, r + 1, q);
    }
  }

  /** `m` whole minutes (1 to 59) have elapsed: the label counts them, singular for one. */
  lemma RelativeTimeMinutes(now: int, timestamp: int, localeDate: string, m: nat)
    requires 1 <= m < 60
    requires MINUTE_MS * m <= now - timestamp < MINUTE_MS * (m + 1)
    ensures FormatRelativeTime(now, timestamp, localeDate)
         == Text.DecimalString(m) + (if m == 1 then " minute ago" else " minutes ago")
  {
    FloorDiv(now - timestamp, MINUTE_MS, m);
  }

  /** `h` whole hours (1 to 23) have elapsed: the label counts them, singular for one. */
  lemma RelativeTimeHours(now: int, timestamp: int, localeDate: string, h: nat)
    requires 1 <= h < 24
    requires HOUR_MS * h <= now - timestamp < HOUR_MS * (h + 1)
    ensures FormatRelativeTime(now, timestamp, localeDate)
         == Text.DecimalString(h) + (if h == 1 then " hour ago" else " hours ago")
  {
    FloorDiv(now - timestamp, HOUR_MS, h);
    FloorDivAtLeast(now - timestamp, MINUTE_MS, 60);
  }

  /**
   * "Yesterday" is shown exactly when the floored day count is one, that is
   * when between 24 and 48 hours have elapsed (provided the locale date text
   * is not itself the word "Yesterday").
   */
  lemma RelativeTimeYesterday(now: int, timestamp: int, localeDate: string)
    requires localeDate != "Yesterday"
    ensures FormatRelativeTime(now, timestamp, localeDate) == "Yesterday"
        <==> DAY_MS <= now - timestamp < 2 * DAY_MS
  {
    var diff := now - timestamp;
    var r := FormatRelativeTime(now, timestamp, localeDate);
    if DAY_MS <= diff < 2 * DAY_MS {
      FloorDivAtLeast(diff, MINUTE_MS, 60);
      FloorDivAtLeast(diff, HOUR_MS, 24);
      FloorDiv(diff, DAY_MS, 1);
    } else if diff >= MINUTE_MS && diff < DAY_MS {
      // every other label ends in "ago", whose last letter is not the 'y' of "Yesterday"
      assert r[|r| - 1] == 'o';
    } else if diff >= 2 * DAY_MS {
      FloorDivAtLeast(diff, DAY_MS, 2);
    }
  }

  // ---------------------------------------------------------------------------
  // Merging the catalog with the read set

  /** The catalog entry with its read flag overridden: read if its id was marked read, or if the catalog says so. */
  function WithReadState(n: Notification, readIds: set<string>): Notification {
    n.(isRead := n.id in readIds || n.isRead)
  }

  /** The catalog in its own order, each entry's read flag merged with the read set. */
  function Merge(catalog: seq<Notification>, readIds: set<string>): (merged: seq<Notification>)
    ensures |merged| == |catalog|
    ensures forall i :: 0 <= i < |catalog| ==>
      merged[i].isRead == (catalog[i].id in readIds || catalog[i].isRead) &&
      merged[i] == catalog[i].(isRead := merged[i].isRead)
  {
    if catalog == [] then [] else [WithReadState(catalog[0], readIds)] + Merge(catalog[1..], readIds)
  }

  /** The unread entries, in order. */
  function UnreadNotifications(merged: seq<Notification>): (unread: seq<Notification>)
    ensures |unread| <= |merged|
    ensures forall n :: n in unread <==> n in merged && !n.isRead
  {
    if merged == [] then []
    else (if merged[0].isRead then [] else [merged[0]]) + UnreadNotifications(merged[1..])
  }

  /** The unread list works entry by entry: it distributes over concatenation. */
  lemma {:induction false} UnreadNotificationsAppend(a: seq<Notification>, b: seq<Notification>)
    ensures UnreadNotifications(a + b) == UnreadNotifications(a) + UnreadNotifications(b)
  {
    if a != [] {
      var x, rest := a[0], a[1..];
      assert a == [x] + rest;
      assert a + b == [x] + (rest + b);
      UnreadNotificationsCons(x, rest);
      UnreadNotificationsCons(x, rest + b);
      UnreadNotificationsAppend(rest, b);
    } else {
      assert a + b == b;
    }
  }

  /** One unfolding of the unread list at its head. */
  lemma UnreadNotificationsCons(x: Notification, rest: seq<Notification>)
    ensures UnreadNotifications([x] + rest) == (if x.isRead then [] else [x]) + UnreadNotifications(rest)
  {
    assert ([x] + rest)[0] == x && ([x] + rest)[1..] == rest;
  }

  /** A single entry is listed exactly when it is unread. */
  lemma UnreadNotificationsOne(n: Notification)
    ensures UnreadNotifications([n]) == if n.isRead then [] else [n]
  {
    assert [n][1..] == [];
  }

  /** The positions of the unread merged entries. */
  function UnreadPositions(merged: seq<Notification>): set<nat> {
    set i: nat | i < |merged| && !merged[i].isRead
  }

  /** The unread list has one entry per unread position. */
  lemma {:induction false} UnreadNotificationsCount(merged: seq<Notification>)
    ensures |UnreadNotifications(merged)| == |UnreadPositions(merged)|
  {
    if merged != [] {
      var n := |merged| - 1;
      var init := merged[..n];
      var x := merged[n];
      UnreadNotificationsCount(init);
      assert merged == init + [x];
      UnreadNotificationsAppend(init, [x]);
      UnreadNotificationsOne(x);
      UnreadPositionsSnoc(merged);
      var before := UnreadPositions(init);
      if x.isRead {
        assert UnreadNotifications(merged) == UnreadNotifications(init);
        assert UnreadPositions(merged) == before;
      } else {
        assert UnreadNotifications(merged) == UnreadNotifications(init) + [x];
        assert UnreadPositions(merged) == before + {n} && n !in before;
        assert |before + {n}| == |before| + 1;
      }
    }
  }

  /** The last entry adds its own position, and only when it is unread. */
  lemma UnreadPositionsSnoc(merged: seq<Notification>)
    requires merged != []
    ensures |merged| - 1 !in UnreadPositions(merged[..|merged| - 1])
    ensures UnreadPositions(merged) ==
      UnreadPositions(merged[..|merged| - 1]) + (if merged[|merged| - 1].isRead then {} else {|merged| - 1})
  {
    var n := |merged| - 1;
    var init := merged[..n];
    var before := UnreadPositions(init);
    var after := UnreadPositions(merged);
    var added: set<nat> := if merged[n].isRead then {} else {n};
    forall i: nat | i in after ensures i in before + added {
      if i < n {
        assert merged[i] == init[i];
      }
    }
    forall i: nat | i in before + added ensures i in after {
      if i < n {
        assert merged[i] == init[i];
      }
    }
    assert after == before + added;
  }

  /** `unreadNotifications.length`: the number of merged entries that are unread. */
  function UnreadCount(merged: seq<Notification>): (c: nat)
    ensures c == |UnreadPositions(merged)|
  {
    UnreadNotificationsCount(merged);
    |UnreadNotifications(merged)|
  }

  /** The unread count is zero exactly when every merged entry is read. */
  lemma {:induction false} UnreadCountZero(merged: seq<Notification>)
    ensures UnreadCount(merged) == 0 <==> forall i :: 0 <= i < |merged| ==> merged[i].isRead
  {
    if merged != [] {
      UnreadCountZero(merged[1..]);
      assert forall i :: 1 <= i < |merged| ==> merged[i] == merged[1..][i - 1];
    }
  }

  /**
   * Growing the read set never raises the unread count, and it lowers the
   * count when an entry that was unread becomes read.
   */
  lemma {:induction false} UnreadCountMonotone(catalog: seq<Notification>, s: set<string>, t: set<string>)
    requires s <= t
    ensures UnreadCount(Merge(catalog, t)) <= UnreadCount(Merge(catalog, s))
    ensures (exists i :: 0 <= i < |catalog| && !catalog[i].isRead && catalog[i].id in t - s)
        ==> UnreadCount(Merge(catalog, t)) < UnreadCount(Merge(catalog, s))
  {
    if catalog != [] {
      UnreadCountMonotone(catalog[1..], s, t);
      assert Merge(catalog, s) == [WithReadState(catalog[0], s)] + Merge(catalog[1..], s);
      assert Merge(catalog, t) == [WithReadState(catalog[0], t)] + Merge(catalog[1..], t);
      assert Merge(catalog, s)[1..] == Merge(catalog[1..], s);
      assert Merge(catalog, t)[1..] == Merge(catalog[1..], t);
      if exists i :: 0 <= i < |catalog| && !catalog[i].isRead && catalog[i].id in t - s {
        var i :| 0 <= i < |catalog| && !catalog[i].isRead && catalog[i].id in t - s;
        if i > 0 {
          assert catalog[1..][i - 1] == catalog[i];
        }
      }
    }
  }

  // ---------------------------------------------------------------------------
  // Badge

  /** `unreadCount > 9 ? "9+" : unreadCount.toString()` */
  function BadgeText(count: nat): (r: string)
    ensures count > 9 ==> r == "9+"
    ensures count <= 9 ==> |r| == 1 && Text.IsDigit(r[0]) && Text.ParseDecimal(r) == count
  {
    Text.DecimalStringRoundTrip(count);
    if count > 9 then "9+" else Text.DecimalString(count)
  }

  /** The rendered badge: hidden when nothing is unread, otherwise the badge text. */
  function Badge(count: nat): (r: Option<string>)
    ensures r.None? <==> count == 0
    ensures r.Some? ==> r.value == BadgeText(count)
  {
    if count > 0 then Some(BadgeText(count)) else None
  }

  lemma BadgeExamples()
    ensures Badge(0) == None
    ensures Badge(1) == Some("1") && Badge(9) == Some("9")
    ensures Badge(10) == Some("9+") && Badge(150) == Some("9+")
  {
    assert Text.DecimalString(1) == "1";
    assert Text.DecimalString(9) == "9";
  }

  // ---------------------------------------------------------------------------
  // The three newest entries

  /** Newest first: timestamps never increase along the sequence. */
  ghost predicate NewestFirst(s: seq<Notification>) {
    forall i, j :: 0 <= i < j < |s| ==> s[i].timestamp >= s[j].timestamp
  }

  /** The entries with timestamp `t`, in order. */
  function WithTimestamp(s: seq<Notification>, t: int): seq<Notification> {
    if s == [] then []
    else (if s[0].timestamp == t then [s[0]] else []) + WithTimestamp(s[1..], t)
  }

  /** Put `x` before the first entry of `sorted` that is not newer than it. */
  function InsertByRecency(x: Notification, sorted: seq<Notification>): (r: seq<Notification>)
    ensures multiset(r) == multiset(sorted) + multiset{x}
    ensures |r| == |sorted| + 1
  {
    assert sorted != [] ==> sorted == [sorted[0]] + sorted[1..];
    if sorted == [] || sorted[0].timestamp <= x.timestamp then [x] + sorted
    else [sorted[0]] + InsertByRecency(x, sorted[1..])
  }

  /**
   * `[...notifications].sort((a, b) => b.timestamp - a.timestamp)`: a stable
   * sort, newest first (insertion sort; stability is what matters here).
   */
  function SortByRecency(s: seq<Notification>): (r: seq<Notification>)
    ensures multiset(r) == multiset(s)
    ensures |r| == |s|
  {
    assert s != [] ==> s == [s[0]] + s[1..];
    if s == [] then [] else InsertByRecency(s[0], SortByRecency(s[1..]))
  }

  /** No entry of `s` is newer than `t`. */
  ghost predicate NoneNewerThan(s: seq<Notification>, t: int) {
    forall i :: 0 <= i < |s| ==> s[i].timestamp <= t
  }

  lemma {:induction false} InsertByRecencyBounded(x: Notification, sorted: seq<Notification>, t: int)
    requires NoneNewerThan(sorted, t) && x.timestamp <= t
    ensures NoneNewerThan(InsertByRecency(x, sorted), t)
  {
    if sorted != [] && sorted[0].timestamp > x.timestamp {
      InsertByRecencyBounded(x, sorted[1..], t);
      var r := InsertByRecency(x, sorted);
      assert forall i :: 1 <= i < |r| ==> r[i] == InsertByRecency(x, sorted[1..])[i - 1];
    }
  }

  /** A newest-first list stays newest-first with an entry no older than all of it in front. */
  lemma ConsNewestFirst(h: Notification, tail: seq<Notification>)
    requires NewestFirst(tail) && NoneNewerThan(tail, h.timestamp)
    ensures NewestFirst([h] + tail)
  {
    var r := [h] + tail;
    forall a, b | 0 <= a < b < |r| ensures r[a].timestamp >= r[b].timestamp {
      assert r[b] == tail[b - 1];
      if a > 0 {
        assert r[a] == tail[a - 1];
      }
    }
  }

  /** Inserting into a newest-first list keeps it newest-first. */
  lemma {:induction false} InsertByRecencyNewestFirst(x: Notification, sorted: seq<Notification>)
    requires NewestFirst(sorted)
    ensures NewestFirst(InsertByRecency(x, sorted))
  {
    if sorted != [] && sorted[0].timestamp > x.timestamp {
      var rest := sorted[1..];
      assert NewestFirst(rest);
      assert NoneNewerThan(rest, sorted[0].timestamp);
      InsertByRecencyNewestFirst(x, rest);
      InsertByRecencyBounded(x, rest, sorted[0].timestamp);
      ConsNewestFirst(sorted[0], InsertByRecency(x, rest));
    } else {
      ConsNewestFirst(x, sorted);
    }
  }

  lemma WithTimestampCons(h: Notification, tail: seq<Notification>, t: int)
    ensures WithTimestamp([h] + tail, t) == (if h.timestamp == t then [h] else []) + WithTimestamp(tail, t)
  {
    assert ([h] + tail)[1..] == tail;
  }

  /**
   * An insertion keeps the order among entries of each timestamp, and `x`
   * comes before the entries of its own timestamp: every entry it passes is
   * strictly newer than it.
   */
  lemma {:induction false} InsertByRecencyStable(x: Notification, sorted: seq<Notification>, t: int)
    ensures WithTimestamp(InsertByRecency(x, sorted), t)
         == (if x.timestamp == t then [x] else []) + WithTimestamp(sorted, t)
    decreases |sorted|
  {
    if sorted != [] && sorted[0].timestamp > x.timestamp {
      var h, rest := sorted[0], sorted[1..];
      InsertByRecencyUnfold(x, sorted);
      InsertByRecencyStable(x, rest, t);
      assert sorted == [h] + rest;
      WithTimestampPass(x, h, rest, InsertByRecency(x, rest), t);
    } else {
      InsertByRecencyUnfold(x, sorted);
      WithTimestampCons(x, sorted, t);
    }
  }

  /** When `x` passes a strictly newer head `h`, the head cannot carry `x`'s timestamp. */
  lemma WithTimestampPass(x: Notification, h: Notification, rest: seq<Notification>,
                          inserted: seq<Notification>, t: int)
    requires h.timestamp > x.timestamp
    requires WithTimestamp(inserted, t) == (if x.timestamp == t then [x] else []) + WithTimestamp(rest, t)
    ensures WithTimestamp([h] + inserted, t)
         == (if x.timestamp == t then [x] else []) + WithTimestamp([h] + rest, t)
  {
    WithTimestampCons(h, inserted, t);
    WithTimestampCons(h, rest, t);
    var wx: seq<Notification> := if x.timestamp == t then [x] else [];
    var wh: seq<Notification> := if h.timestamp == t then [h] else [];
    var w := WithTimestamp(rest, t);
    if x.timestamp == t {
      assert wh == [] && wh + (wx + w) == wx + w;
    } else {
      assert wx == [] && wh + (wx + w) == wx + (wh + w);
    }
  }

  /** One step of the insertion: either `x` goes in front, or the head stays and `x` goes into the tail. */
  lemma InsertByRecencyUnfold(x: Notification, sorted: seq<Notification>)
    ensures sorted != [] && sorted[0].timestamp > x.timestamp ==>
      InsertByRecency(x, sorted) == [sorted[0]] + InsertByRecency(x, sorted[1..])
    ensures sorted == [] || sorted[0].timestamp <= x.timestamp ==> InsertByRecency(x, sorted) == [x] + sorted
  {
  }

  /** The sort puts the newest entries first. */
  lemma {:induction false} SortByRecencyNewestFirst(s: seq<Notification>)
    ensures NewestFirst(SortByRecency(s))
  {
    if s != [] {
      SortByRecencyNewestFirst(s[1..]);
      InsertByRecencyNewestFirst(s[0], SortByRecency(s[1..]));
    }
  }

  /** Stability: for every timestamp, the entries carrying it appear in the sorted list in their original order. */
  lemma {:induction false} SortByRecencyStable(s: seq<Notification>, t: int)
    ensures WithTimestamp(SortByRecency(s), t) == WithTimestamp(s, t)
  {
    if s != [] {
      SortByRecencyStable(s[1..], t);
      InsertByRecencyStable(s[0], SortByRecency(s[1..]), t);
    }
  }

  /** Filtering a prefix by timestamp gives a prefix of the filtered whole. */
  lemma {:induction false} WithTimestampPrefix(s: seq<Notification>, k: nat, t: int)
    requires k <= |s|
    ensures WithTimestamp(s[..k], t) <= WithTimestamp(s, t)
  {
    if k > 0 {
      WithTimestampPrefix(s[1..], k - 1, t);
      assert s[..k][1..] == s[1..][..k - 1];
    }
  }

  function Min(a: nat, b: nat): nat {
    if a <= b then a else b
  }

  /** `.slice(0, 3)` of the newest-first list. */
  function DisplayNotifications(merged: seq<Notification>): (r: seq<Notification>)
    ensures |r| == Min(DISPLAY_LIMIT, |merged|)
    ensures r <= SortByRecency(merged)
  {
    var sorted := SortByRecency(merged);
    sorted[..Min(DISPLAY_LIMIT, |sorted|)]
  }

  /** The merged entries that are not displayed. */
  function OmittedNotifications(merged: seq<Notification>): seq<Notification> {
    var sorted := SortByRecency(merged);
    sorted[Min(DISPLAY_LIMIT, |sorted|)..]
  }

  /**
   * The dropdown lists `min(3, n)` entries of the merged list, newest first,
   * and together with the omitted entries they are exactly the merged list.
   */
  lemma DisplayNotificationsSize(merged: seq<Notification>)
    ensures |DisplayNotifications(merged)| == Min(DISPLAY_LIMIT, |merged|)
    ensures NewestFirst(DisplayNotifications(merged))
    ensures multiset(DisplayNotifications(merged)) + multiset(OmittedNotifications(merged)) == multiset(merged)
    ensures forall n :: n in DisplayNotifications(merged) ==> n in merged
  {
    var sorted := SortByRecency(merged);
    SortByRecencyNewestFirst(merged);
    var k := Min(DISPLAY_LIMIT, |sorted|);
    var d, o := sorted[..k], sorted[k..];
    assert sorted == d + o;
    forall n | n in d ensures n in merged {
      assert n in multiset(merged);
    }
  }

  /** No omitted entry is newer than a displayed one. */
  lemma DisplayNotificationsNewest(merged: seq<Notification>)
    ensures forall d, o :: d in DisplayNotifications(merged) && o in OmittedNotifications(merged)
              ==> o.timestamp <= d.timestamp
  {
    var sorted := SortByRecency(merged);
    SortByRecencyNewestFirst(merged);
    var k := Min(DISPLAY_LIMIT, |sorted|);
    var d, o := sorted[..k], sorted[k..];
    forall x, y | x in d && y in o ensures y.timestamp <= x.timestamp {
      var i :| 0 <= i < |d| && d[i] == x;
      var j :| 0 <= j < |o| && o[j] == y;
      assert sorted[i] == x && sorted[k + j] == y;
    }
  }

  /** Ties keep catalog order: the displayed entries of any one timestamp are the first ones of that timestamp in the merged list. */
  lemma DisplayNotificationsStable(merged: seq<Notification>, t: int)
    ensures WithTimestamp(DisplayNotifications(merged), t) <= WithTimestamp(merged, t)
  {
    var sorted := SortByRecency(merged);
    WithTimestampPrefix(sorted, Min(DISPLAY_LIMIT, |sorted|), t);
    SortByRecencyStable(merged, t);
  }

  // ---------------------------------------------------------------------------
  // Storage and the read-state store

  /** What the store holds under a key: a parsed list of ids, or text that cannot be read back. */
  datatype Stored = Ids(ids: seq<string>) | Unreadable

  predicate NoDuplicates(s: seq<string>) {
    forall i, j :: 0 <= i < j < |s| ==> s[i] != s[j]
  }

  function Elements(s: seq<string>): set<string> {
    set x | x in s
  }

  /** `new Set(prev).add(id)` on an insertion-ordered set: appended when new. */
  function AddId(s: seq<string>, id: string): (r: seq<string>)
    ensures NoDuplicates(s) ==> NoDuplicates(r)
    ensures Elements(r) == Elements(s) + {id}
    ensures id in s ==> r == s
  {
    if id in s then s else s + [id]
  }

  /** `new Set(array)`: the distinct ids in order of first occurrence. */
  function Dedup(s: seq<string>): (r: seq<string>)
    ensures NoDuplicates(r)
    ensures Elements(r) == Elements(s)
  {
    if s == [] then [] else AddId(Dedup(s[..|s| - 1]), s[|s| - 1])
  }

  /** An id list without duplicates survives `new Set(...)` unchanged, order included. */
  lemma {:induction false} DedupDistinct(s: seq<string>)
    requires NoDuplicates(s)
    ensures Dedup(s) == s
  {
    if s != [] {
      var n := |s| - 1;
      var init, last := s[..n], s[n];
      assert s == init + [last];
      NoDuplicatesSplit(init, last);
      DedupDistinct(init);
      calc {
        Dedup(s);
        AddId(Dedup(init), last);
        AddId(init, last);
        init + [last];
      }
    }
  }

  /** A duplicate-free list ending in `last`: its front is duplicate-free and does not hold `last`. */
  lemma NoDuplicatesSplit(init: seq<string>, last: string)
    requires NoDuplicates(init + [last])
    ensures NoDuplicates(init) && last !in init
  {
    var s := init + [last];
    forall i, j | 0 <= i < j < |init| ensures init[i] != init[j] {
      assert init[i] == s[i] && init[j] == s[j];
    }
    forall i | 0 <= i < |init| ensures init[i] != last {
      assert init[i] == s[i] && last == s[|init|];
    }
  }

  /** What the load effect reads: the stored ids as a set, or nothing when the key is absent or unreadable. */
  function LoadedIds(storage: map<string, Stored>): (r: Option<seq<string>>)
    ensures r.Some? <==> STORAGE_KEY in storage && storage[STORAGE_KEY].Ids?
    ensures r.Some? ==> NoDuplicates(r.value) && Elements(r.value) == Elements(storage[STORAGE_KEY].ids)
  {
    if STORAGE_KEY in storage then
      match storage[STORAGE_KEY]
      case Ids(ids) => Some(Dedup(ids))
      case Unreadable => None
    else None
  }

  /** Saving a read set and loading it back gives the same ids in the same order. */
  lemma SaveLoadRoundTrip(storage: map<string, Stored>, readIds: seq<string>)
    requires NoDuplicates(readIds)
    ensures LoadedIds(storage[STORAGE_KEY := Ids(readIds)]) == Some(readIds)
  {
    DedupDistinct(readIds);
  }

  /**
   * The component's state: the read ids (a JavaScript `Set`, kept here in its
   * insertion order, which is the order `Array.from` serialises) and the
   * browser store it persists to. The catalog is fixed for the component's
   * lifetime.
   */
  class NotificationCenter {
    const catalog: seq<Notification>
    var readIds: seq<string>
    var storage: map<string, Stored>

    ghost predicate Valid()
      reads this
    {
      NoDuplicates(readIds)
    }

    function ReadSet(): set<string>
      reads this
    {
      Elements(readIds)
    }

    /** The merged list the dropdown renders. */
    function Current(): seq<Notification>
      reads this
    {
      Merge(catalog, ReadSet())
    }

    /** First render: nothing read yet; the store is whatever the browser holds. */
    constructor (catalog: seq<Notification>, storage: map<string, Stored>)
      ensures Valid()
      ensures this.catalog == catalog && this.storage == storage
      ensures readIds == [] && ReadSet() == {}
    {
      this.catalog := catalog;
      this.readIds := [];
      this.storage := storage;
    }

    /** The save-on-change effect; `writable` is false when `setItem` throws, and the failure is swallowed. */
    method Save(writable: bool)
      requires Valid()
      modifies this`storage
      ensures Valid()
      ensures storage == if writable then old(storage)[STORAGE_KEY := Ids(readIds)] else old(storage)
    {
      if writable {
        storage := storage[STORAGE_KEY := Ids(readIds)];
      }
    }

    /**
     * The two effects that run after the first render, in order: the load
     * effect reads the store and, when it finds a readable id list, schedules
     * the set to be replaced; the save effect then writes the still-empty set;
     * when the set was replaced, the re-render saves it again.
     */
    method Mount(writable: bool)
      requires Valid() && readIds == []
      modifies this`readIds, this`storage
      ensures Valid()
      ensures readIds == LoadedIds(old(storage)).GetOr([])
      ensures storage == if writable then old(storage)[STORAGE_KEY := Ids(readIds)] else old(storage)
    {
      var loaded := LoadedIds(storage);
      Save(writable);
      if loaded.Some? {
        readIds := loaded.value;
        Save(writable);
      }
    }

    /** `markAsRead`: the id joins the set, then the set is saved. */
    method MarkAsRead(id: string, writable: bool)
      requires Valid()
      modifies this`readIds, this`storage
      ensures Valid()
      ensures readIds == AddId(old(readIds), id)
      ensures ReadSet() == old(ReadSet()) + {id}
      ensures storage == if writable then old(storage)[STORAGE_KEY := Ids(readIds)] else old(storage)
      ensures UnreadCount(Current()) <= UnreadCount(old(Current()))
    {
      readIds := AddId(readIds, id);
      Save(writable);
      UnreadCountMonotone(catalog, old(ReadSet()), ReadSet());
    }

    /** A click on a listed entry marks it read when it is unread, and does nothing otherwise. */
    method ClickItem(n: Notification, writable: bool)
      requires Valid()
      requires n in DisplayNotifications(Current())
      modifies this`readIds, this`storage
      ensures Valid()
      ensures n.isRead ==> readIds == old(readIds) && storage == old(storage)
      ensures !n.isRead ==> readIds == AddId(old(readIds), n.id)
      ensures !n.isRead ==> ReadSet() == old(ReadSet()) + {n.id}
      ensures !n.isRead ==> storage == (if writable then old(storage)[STORAGE_KEY := Ids(readIds)] else old(storage))
      ensures !n.isRead ==> UnreadCount(Current()) < UnreadCount(old(Current()))
    {
      if !n.isRead {
        DisplayNotificationsSize(Current());
        assert n in Current();
        var i :| 0 <= i < |Current()| && Current()[i] == n;
        assert catalog[i].id == n.id && !catalog[i].isRead && n.id !in ReadSet();
        ghost var before := ReadSet();
        MarkAsRead(n.id, writable);
        UnreadCountMonotone(catalog, before, ReadSet());
      }
    }
  }
}
