/** The Android home-screen widget's activity pipeline
    (PlaytivityWidgetProvider.kt): read the numbered activity slots the app
    stored in shared preferences, drop incomplete ones, order the rest with
    playing items first and newer items first, and label each with the time
    since it was played. Preferences are maps from keys to string values;
    the clock reading is a parameter. */
module AndroidWidget {
  import opened Results
  import opened Text
  import opened NumParse

  // ---------------------------------------------------------------------
  // Long arithmetic

  const Two64: int := 0x1_0000_0000_0000_0000

  /** Kotlin `Long` subtraction wraps around modulo 2^64. */
  function Wrap64(x: int): (r: int)
    ensures IsInt64(r)
    ensures (x - r) % Two64 == 0
    ensures IsInt64(x) ==> r == x
  {
    (x - Int64Min) % Two64 + Int64Min
  }

  const MillisPerMinute: int := 60000

  /** `ms / (1000 * 60)` on a `Long`: JVM division rounds toward zero. */
  function MinutesOf(ms: int): int {
    Quot(ms, MillisPerMinute)
  }

  // ---------------------------------------------------------------------
  // Activity items and their time labels

  datatype ActivityItem = ActivityItem(
    friendName: string,
    trackName: string,
    artistName: string,
    cachedImagePath: string,
    timestamp: int,
    isCurrentlyPlaying: bool,
    activityType: string,
    userId: string)

  /** What `getTimeAgoText` shows: a text, or the timestamp's `MMM dd` date
      (locale formatting is not modelled). */
  datatype TimeLabel = Label(text: string) | MonthDay(timestamp: int)

  /** Whole minutes between the timestamp and the clock reading, computed
      the way the widget does it in `Long` arithmetic. */
  function ElapsedMinutes(nowMs: int, timestamp: int): int {
    MinutesOf(Wrap64(nowMs - timestamp))
  }

  /** `ActivityItem.getTimeAgoText` with the clock reading `nowMs`. */
  function TimeAgoText(a: ActivityItem, nowMs: int): (r: TimeLabel)
    ensures a.isCurrentlyPlaying ==> r == Label("Listening now")
    ensures r.MonthDay? ==> r.timestamp == a.timestamp
  {
    if a.isCurrentlyPlaying then Label("Listening now")
    else
      var m := ElapsedMinutes(nowMs, a.timestamp);
      if m < 1 then Label("Just now")
      else if m < 60 then Label(NatToString(m) + "m ago")
      else if m < 1440 then Label(NatToString(m / 60) + "h ago")
      else if m < 10080 then Label(NatToString(m / 1440) + "d ago")
      else MonthDay(a.timestamp)
  }

  /** The label names the elapsed time rounded down to the largest unit
      below a week; a week or more shows the date, and anything under a
      minute (a timestamp in the future included) is "Just now". */
  lemma TimeAgoBuckets(a: ActivityItem, nowMs: int)
    requires !a.isCurrentlyPlaying
    ensures var m := ElapsedMinutes(nowMs, a.timestamp);
      m < 1 ==> TimeAgoText(a, nowMs) == Label("Just now")
    ensures var m := ElapsedMinutes(nowMs, a.timestamp);
      1 <= m < 60 ==> TimeAgoText(a, nowMs) == Label(NatToString(m) + "m ago")
    ensures var m := ElapsedMinutes(nowMs, a.timestamp);
      60 <= m < 1440 ==> (exists h: nat :: (1 <= h < 24 && 60 * h <= m < 60 * (h + 1)
        && TimeAgoText(a, nowMs) == Label(NatToString(h) + "h ago")))
    ensures var m := ElapsedMinutes(nowMs, a.timestamp);
      1440 <= m < 10080 ==> (exists d: nat :: (1 <= d < 7 && 1440 * d <= m < 1440 * (d + 1)
        && TimeAgoText(a, nowMs) == Label(NatToString(d) + "d ago")))
    ensures var m := ElapsedMinutes(nowMs, a.timestamp);
      m >= 10080 ==> TimeAgoText(a, nowMs) == MonthDay(a.timestamp)
  {
    var m := ElapsedMinutes(nowMs, a.timestamp);
    if 60 <= m < 1440 {
      var h: nat := m / 60;
      assert 60 * h <= m < 60 * (h + 1);
      assert 1 <= h < 24;
      assert TimeAgoText(a, nowMs) == Label(NatToString(h) + "h ago");
    } else if 1440 <= m < 10080 {
      var d: nat := m / 1440;
      assert 1440 * d <= m < 1440 * (d + 1);
      assert 1 <= d < 7;
      assert TimeAgoText(a, nowMs) == Label(NatToString(d) + "d ago");
    }
  }

  /** A timestamp between the epoch and the clock reading is subtracted
      without wrapping. */
  lemma PastTimestampIsExact(nowMs: int, timestamp: int)
    requires 0 <= timestamp <= nowMs <= Int64Max
    ensures ElapsedMinutes(nowMs, timestamp) == (nowMs - timestamp) / MillisPerMinute
  {
  }

  /** A timestamp ahead of the clock reads as "Just now". */
  lemma FutureTimestampIsJustNow(a: ActivityItem, nowMs: int)
    requires !a.isCurrentlyPlaying && 0 <= nowMs < a.timestamp <= Int64Max
    ensures TimeAgoText(a, nowMs) == Label("Just now")
  {
    assert IsInt64(nowMs - a.timestamp);
  }

  /** The subtraction wraps for the most negative `Long`: such a timestamp,
      though the oldest possible, reads as "Just now". */
  lemma OldestTimestampWraps(a: ActivityItem, nowMs: int)
    requires !a.isCurrentlyPlaying && a.timestamp == Int64Min && 0 <= nowMs <= Int64Max
    ensures Wrap64(nowMs - a.timestamp) == nowMs + Int64Min
    ensures TimeAgoText(a, nowMs) == Label("Just now")
  {
    var x := nowMs - a.timestamp;
    assert Two64 <= x + Two64 - Two64 + Two64;
    assert (x - Int64Min) % Two64 == nowMs;
  }

  // ---------------------------------------------------------------------
  // The sort comparator

  /** `b.timestamp.compareTo(a.timestamp)` is `Long.compare`: -1, 0 or 1. */
  function LongCompare(x: int, y: int): int {
    if x < y then -1 else if x == y then 0 else 1
  }

  /** The comparator passed to `sortedWith` and `sortWith`. */
  function Compare(a: ActivityItem, b: ActivityItem): (r: int)
    ensures r == -1 || r == 0 || r == 1
  {
    if a.isCurrentlyPlaying && !b.isCurrentlyPlaying then -1
    else if !a.isCurrentlyPlaying && b.isCurrentlyPlaying then 1
    else LongCompare(b.timestamp, a.timestamp)
  }

  /** The intended order: a playing item before one that is not, and among
      items with the same playing state the newer first. */
  predicate Precedes(a: ActivityItem, b: ActivityItem) {
    (a.isCurrentlyPlaying && !b.isCurrentlyPlaying)
    || (a.isCurrentlyPlaying == b.isCurrentlyPlaying && a.timestamp >= b.timestamp)
  }

  /** The comparator answers "not after" exactly when `Precedes` holds, is
      antisymmetric, and calls two items equal exactly when they agree on
      the playing state and the timestamp. */
  lemma CompareMeansPrecedes(a: ActivityItem, b: ActivityItem)
    ensures Compare(a, b) <= 0 <==> Precedes(a, b)
    ensures Compare(a, b) == -Compare(b, a)
    ensures Compare(a, b) == 0 <==> a.isCurrentlyPlaying == b.isCurrentlyPlaying && a.timestamp == b.timestamp
  {
  }

  /** `Precedes` is a total preorder, so the comparator is a valid one for
      a sort. */
  lemma PrecedesIsTotalPreorder(a: ActivityItem, b: ActivityItem, c: ActivityItem)
    ensures Precedes(a, b) || Precedes(b, a)
    ensures Precedes(a, b) && Precedes(b, c) ==> Precedes(a, c)
  {
  }

  // ---------------------------------------------------------------------
  // The stable sort

  predicate Sorted(s: seq<ActivityItem>) {
    forall i, j :: 0 <= i < j < |s| ==> Precedes(s[i], s[j])
  }

  /** Whether two items are tied under the comparator: the same playing
      state and the same timestamp. */
  predicate Tied(a: ActivityItem, b: ActivityItem) {
    a.isCurrentlyPlaying == b.isCurrentlyPlaying && a.timestamp == b.timestamp
  }

  /** The items of `s` tied with `x`, in order. */
  function Group(s: seq<ActivityItem>, x: ActivityItem): (r: seq<ActivityItem>)
    ensures |r| <= |s|
    decreases |s|
  {
    if |s| == 0 then []
    else Group(s[..|s| - 1], x) + (if Tied(s[|s| - 1], x) then [s[|s| - 1]] else [])
  }

  lemma {:induction false} GroupAppend(a: seq<ActivityItem>, b: seq<ActivityItem>, x: ActivityItem)
    ensures Group(a + b, x) == Group(a, x) + Group(b, x)
    decreases |b|
  {
    if |b| == 0 {
      assert a + b == a;
    } else {
      var c := a + b;
      assert c[..|c| - 1] == a + b[..|b| - 1];
      assert c[|c| - 1] == b[|b| - 1];
      GroupAppend(a, b[..|b| - 1], x);
    }
  }

  lemma GroupOfOne(y: ActivityItem, x: ActivityItem)
    ensures Group([y], x) == if Tied(y, x) then [y] else []
  {
    assert [y][..0] == [];
  }

  /** `x` goes after every item it does not come strictly before, which
      keeps tied items in their original order. */
  function Insert(x: ActivityItem, s: seq<ActivityItem>): (r: seq<ActivityItem>)
    requires Sorted(s)
    ensures Sorted(r)
    ensures multiset(r) == multiset(s) + multiset{x}
    decreases |s|
  {
    if |s| == 0 then [x]
    else if !Precedes(s[0], x) then
      BeforeHead(x, s);
      ConsSorted(x, s);
      [x] + s
    else
      var t := Insert(x, s[1..]);
      HeadPrecedesAll(s[0], x, s[1..], t);
      ConsSorted(s[0], t);
      assert s == [s[0]] + s[1..];
      [s[0]] + t
  }

  /** What comes strictly before the head of a sorted list comes strictly
      before all of it. */
  lemma BeforeHead(x: ActivityItem, s: seq<ActivityItem>)
    requires Sorted(s) && |s| > 0 && !Precedes(s[0], x)
    ensures forall j :: 0 <= j < |s| ==> Precedes(x, s[j]) && !Precedes(s[j], x)
  {
  }

  lemma HeadPrecedesAll(h: ActivityItem, x: ActivityItem, rest: seq<ActivityItem>, t: seq<ActivityItem>)
    requires multiset(t) == multiset(rest) + multiset{x}
    requires Precedes(h, x)
    requires forall j :: 0 <= j < |rest| ==> Precedes(h, rest[j])
    ensures forall j :: 0 <= j < |t| ==> Precedes(h, t[j])
  {
    forall j | 0 <= j < |t|
      ensures Precedes(h, t[j])
    {
      assert t[j] in multiset(t);
      if t[j] != x {
        assert t[j] in multiset(rest);
        var k :| 0 <= k < |rest| && rest[k] == t[j];
      }
    }
  }

  lemma ConsSorted(h: ActivityItem, t: seq<ActivityItem>)
    requires Sorted(t)
    requires forall j :: 0 <= j < |t| ==> Precedes(h, t[j])
    ensures Sorted([h] + t)
  {
    var r := [h] + t;
    forall i, j | 0 <= i < j < |r|
      ensures Precedes(r[i], r[j])
    {
      assert r[j] == t[j - 1];
      if i > 0 {
        assert r[i] == t[i - 1];
      }
    }
  }

  /** Kotlin's `sortedWith`/`sortWith` with the widget's comparator: a
      stable sort, modelled as insertion of each item in list order. */
  function SortActivities(xs: seq<ActivityItem>): (r: seq<ActivityItem>)
    ensures Sorted(r)
    ensures multiset(r) == multiset(xs)
    decreases |xs|
  {
    if |xs| == 0 then []
    else
      assert xs == xs[..|xs| - 1] + [xs[|xs| - 1]];
      Insert(xs[|xs| - 1], SortActivities(xs[..|xs| - 1]))
  }

  /** Inserting `x` appends it to its tie group and leaves the other groups
      alone. */
  lemma {:induction false} InsertKeepsTies(x: ActivityItem, s: seq<ActivityItem>, y: ActivityItem)
    requires Sorted(s)
    ensures Group(Insert(x, s), y) == Group(s, y) + Group([x], y)
    decreases |s|
  {
    if |s| == 0 {
    } else if !Precedes(s[0], x) {
      InsertInFront(x, s, y);
    } else {
      InsertFurther(x, s, y);
    }
  }

  lemma InsertInFront(x: ActivityItem, s: seq<ActivityItem>, y: ActivityItem)
    requires Sorted(s) && |s| > 0 && !Precedes(s[0], x)
    ensures Group(Insert(x, s), y) == Group(s, y) + Group([x], y)
  {
    assert Insert(x, s) == [x] + s;
    BeforeHead(x, s);
    GroupAppend([x], s, y);
    GroupOfOne(x, y);
    if Tied(x, y) {
      NoneTied(s, x, y);
    }
  }

  lemma InsertFurther(x: ActivityItem, s: seq<ActivityItem>, y: ActivityItem)
    requires Sorted(s) && |s| > 0 && Precedes(s[0], x)
    ensures Group(Insert(x, s), y) == Group(s, y) + Group([x], y)
    decreases |s|, 0
  {
    var rest := s[1..];
    SortedTail(s);
    var t := Insert(x, rest);
    InsertKeepsTies(x, rest, y);
    InsertPastHead(x, s);
    GroupCons(s[0], rest, t, Group([x], y), y);
    assert s == [s[0]] + rest;
  }

  /** Putting the same item in front of two lists keeps how their groups
      relate. */
  lemma GroupCons(h: ActivityItem, rest: seq<ActivityItem>, t: seq<ActivityItem>, g: seq<ActivityItem>, y: ActivityItem)
    requires Group(t, y) == Group(rest, y) + g
    ensures Group([h] + t, y) == Group([h] + rest, y) + g
  {
    GroupAppend([h], t, y);
    GroupAppend([h], rest, y);
  }

  lemma SortedTail(s: seq<ActivityItem>)
    requires Sorted(s) && |s| > 0
    ensures Sorted(s[1..])
  {
    var rest := s[1..];
    forall i, j | 0 <= i < j < |rest|
      ensures Precedes(rest[i], rest[j])
    {
      assert rest[i] == s[i + 1] && rest[j] == s[j + 1];
    }
  }

  lemma InsertPastHead(x: ActivityItem, s: seq<ActivityItem>)
    requires Sorted(s) && |s| > 0 && Precedes(s[0], x)
    ensures Sorted(s[1..])
    ensures Insert(x, s) == [s[0]] + Insert(x, s[1..])
  {
    SortedTail(s);
  }

  /** No item strictly after `x` is tied with what `x` is tied with. */
  lemma {:induction false} NoneTied(s: seq<ActivityItem>, x: ActivityItem, y: ActivityItem)
    requires Tied(x, y)
    requires forall j :: 0 <= j < |s| ==> !Precedes(s[j], x)
    ensures Group(s, y) == []
    decreases |s|
  {
    if |s| > 0 {
      NoneTied(s[..|s| - 1], x, y);
    }
  }

  /** The sort is stable: every group of tied items keeps its order. */
  lemma {:induction false} SortIsStable(xs: seq<ActivityItem>, y: ActivityItem)
    ensures Group(SortActivities(xs), y) == Group(xs, y)
    decreases |xs|
  {
    if |xs| > 0 {
      var init, last := xs[..|xs| - 1], xs[|xs| - 1];
      SortIsStable(init, y);
      InsertKeepsTies(last, SortActivities(init), y);
      GroupOfOne(last, y);
    }
  }

  /** After sorting, playing items come first, and within each group the
      timestamps do not increase. */
  lemma SortedOrder(xs: seq<ActivityItem>, i: nat, j: nat)
    requires i < j < |SortActivities(xs)|
    ensures var r := SortActivities(xs);
      (r[j].isCurrentlyPlaying ==> r[i].isCurrentlyPlaying)
      && (r[i].isCurrentlyPlaying == r[j].isCurrentlyPlaying ==> r[i].timestamp >= r[j].timestamp)
  {
  }

  // ---------------------------------------------------------------------
  // Reading the slots

  /** A preferences file: keys to stored strings. */
  type Prefs = map<string, string>

  /** `SharedPreferences.getString(key, default)`. */
  function GetString(p: Prefs, key: string, default: Option<string>): Option<string> {
    if key in p then Some(p[key]) else default
  }

  /** `friend_<i>_<field>`. */
  function SlotKey(i: nat, field: string): string {
    "friend_" + NatToString(i) + "_" + field
  }

  const FlutterPrefix: string := "flutter."

  /** A slot field: the HomeWidget value with its default, and otherwise the
      Flutter value, which is never consulted since the first default is
      not null. */
  function SlotField(home: Prefs, flutter: Prefs, i: nat, field: string, default: string): string {
    match GetString(home, SlotKey(i, field), Some(default))
    case Some(v) => v
    case None =>
      match GetString(flutter, FlutterPrefix + SlotKey(i, field), Some(default))
      case Some(v) => v
      case None => default
  }

  /** The Flutter fallback of the slot fields is dead: only the HomeWidget
      preferences decide a slot. */
  lemma FlutterSlotsAreIgnored(home: Prefs, f1: Prefs, f2: Prefs, i: nat, field: string, default: string)
    ensures SlotField(home, f1, i, field, default) == SlotField(home, f2, i, field, default)
    ensures SlotField(home, f1, i, field, default)
      == if SlotKey(i, field) in home then home[SlotKey(i, field)] else default
  {
  }

  /** One slot of the loop body: the eight fields with their defaults, the
      timestamp read as a `Long` or else the clock reading, and the playing
      flag read case-insensitively. */
  function ReadSlot(home: Prefs, flutter: Prefs, i: nat, nowMs: int): (r: ActivityItem)
    ensures IsInt64(nowMs) ==> IsInt64(r.timestamp)
    ensures r.isCurrentlyPlaying ==> SlotKey(i, "is_currently_playing") in home
  {
    var ts := KotlinToLong(SlotField(home, flutter, i, "timestamp", "0"));
    ActivityItem(
      SlotField(home, flutter, i, "name", ""),
      SlotField(home, flutter, i, "track", ""),
      SlotField(home, flutter, i, "artist", ""),
      SlotField(home, flutter, i, "cached_image", ""),
      if ts.Some? then ts.value else nowMs,
      KotlinToBoolean(SlotField(home, flutter, i, "is_currently_playing", "false")),
      SlotField(home, flutter, i, "activity_type", "track"),
      SlotField(home, flutter, i, "user_id", ""))
  }

  /** The slot as the app stores it: every field under its key, the
      timestamp in decimal and the flag as `true` or `false`. */
  function WriteSlot(home: Prefs, i: nat, a: ActivityItem): Prefs {
    home[SlotKey(i, "name") := a.friendName]
        [SlotKey(i, "track") := a.trackName]
        [SlotKey(i, "artist") := a.artistName]
        [SlotKey(i, "cached_image") := a.cachedImagePath]
        [SlotKey(i, "timestamp") := IntToString(a.timestamp)]
        [SlotKey(i, "is_currently_playing") := if a.isCurrentlyPlaying then "true" else "false"]
        [SlotKey(i, "activity_type") := a.activityType]
        [SlotKey(i, "user_id") := a.userId]
  }

  /** A stored slot reads back as the item it was stored from. */
  lemma SlotRoundTrip(home: Prefs, flutter: Prefs, i: nat, a: ActivityItem, nowMs: int)
    requires IsInt64(a.timestamp)
    ensures ReadSlot(WriteSlot(home, i, a), flutter, i, nowMs) == a
  {
    var w := WriteSlot(home, i, a);
    WrittenFields(home, i, a);
    ParseOfPrinted(a.timestamp, Int64Min, Int64Max);
    assert Lower("true") == "true";
    assert Lower("false") != "true" by {
      assert Lower("false")[0] == 'f';
    }
  }

  /** Every field of a written slot is stored under its own key. */
  lemma WrittenFields(home: Prefs, i: nat, a: ActivityItem)
    ensures var w := WriteSlot(home, i, a);
      && SlotKey(i, "name") in w && w[SlotKey(i, "name")] == a.friendName
      && SlotKey(i, "track") in w && w[SlotKey(i, "track")] == a.trackName
      && SlotKey(i, "artist") in w && w[SlotKey(i, "artist")] == a.artistName
      && SlotKey(i, "cached_image") in w && w[SlotKey(i, "cached_image")] == a.cachedImagePath
      && SlotKey(i, "timestamp") in w && w[SlotKey(i, "timestamp")] == IntToString(a.timestamp)
      && SlotKey(i, "is_currently_playing") in w
      && w[SlotKey(i, "is_currently_playing")] == (if a.isCurrentlyPlaying then "true" else "false")
      && SlotKey(i, "activity_type") in w && w[SlotKey(i, "activity_type")] == a.activityType
      && SlotKey(i, "user_id") in w && w[SlotKey(i, "user_id")] == a.userId
  {
    KeysDiffer(i, "name", "track"); KeysDiffer(i, "name", "artist");
    KeysDiffer(i, "name", "cached_image"); KeysDiffer(i, "name", "timestamp");
    KeysDiffer(i, "name", "is_currently_playing"); KeysDiffer(i, "name", "activity_type");
    KeysDiffer(i, "name", "user_id");
    KeysDiffer(i, "track", "artist"); KeysDiffer(i, "track", "cached_image");
    KeysDiffer(i, "track", "timestamp"); KeysDiffer(i, "track", "is_currently_playing");
    KeysDiffer(i, "track", "activity_type"); KeysDiffer(i, "track", "user_id");
    KeysDiffer(i, "artist", "cached_image"); KeysDiffer(i, "artist", "timestamp");
    KeysDiffer(i, "artist", "is_currently_playing"); KeysDiffer(i, "artist", "activity_type");
    KeysDiffer(i, "artist", "user_id");
    KeysDiffer(i, "cached_image", "timestamp");
    KeysDiffer(i, "cached_image", "is_currently_playing");
    KeysDiffer(i, "cached_image", "activity_type"); KeysDiffer(i, "cached_image", "user_id");
    KeysDiffer(i, "timestamp", "is_currently_playing"); KeysDiffer(i, "timestamp", "activity_type");
    KeysDiffer(i, "timestamp", "user_id");
    KeysDiffer(i, "is_currently_playing", "activity_type");
    KeysDiffer(i, "is_currently_playing", "user_id");
    KeysDiffer(i, "activity_type", "user_id");
  }

  /** Keys of one slot with different fields are different. */
  lemma KeysDiffer(i: nat, f: string, g: string)
    requires f != g
    ensures SlotKey(i, f) != SlotKey(i, g)
  {
    var pre := "friend_" + NatToString(i) + "_";
    assert SlotKey(i, f) == pre + f && SlotKey(i, g) == pre + g;
    assert (pre + f)[|pre|..] == f;
    assert (pre + g)[|pre|..] == g;
  }

  /** A slot is shown only with a friend name and a track. */
  predicate Complete(a: ActivityItem) {
    a.friendName != "" && a.trackName != ""
  }

  /** Slots `0 until n` in order, as read. */
  function Slots(home: Prefs, flutter: Prefs, n: nat, nowMs: int): (r: seq<ActivityItem>)
    ensures |r| == n
  {
    if n == 0 then [] else Slots(home, flutter, n - 1, nowMs) + [ReadSlot(home, flutter, n - 1, nowMs)]
  }

  /** The complete items of `s`, in order. */
  function CompleteOnly(s: seq<ActivityItem>): (r: seq<ActivityItem>)
    ensures forall k :: 0 <= k < |r| ==> Complete(r[k])
    ensures forall a :: a in r ==> a in s
  {
    if |s| == 0 then []
    else (if Complete(s[0]) then [s[0]] else []) + CompleteOnly(s[1..])
  }

  lemma {:induction false} CompleteOnlyAppend(a: seq<ActivityItem>, b: seq<ActivityItem>)
    ensures CompleteOnly(a + b) == CompleteOnly(a) + CompleteOnly(b)
    decreases |a|
  {
    if |a| > 0 {
      assert (a + b)[1..] == a[1..] + b;
      CompleteOnlyAppend(a[1..], b);
    } else {
      assert a + b == b;
    }
  }

  lemma CompleteOnlySnoc(s: seq<ActivityItem>, a: ActivityItem)
    ensures CompleteOnly(s + [a]) == CompleteOnly(s) + if Complete(a) then [a] else []
  {
    CompleteOnlyAppend(s, [a]);
    assert CompleteOnly([a]) == (if Complete(a) then [a] else []) + CompleteOnly([]);
  }

  /** The loop `for (i in 0 until n)` that adds every complete slot. */
  function ReadSlots(home: Prefs, flutter: Prefs, n: int, nowMs: int): (r: seq<ActivityItem>)
    ensures forall k :: 0 <= k < |r| ==> Complete(r[k])
    ensures |r| <= if n > 0 then n else 0
    decreases if n > 0 then n else 0
  {
    if n <= 0 then []
    else
      var a := ReadSlot(home, flutter, n - 1, nowMs);
      ReadSlots(home, flutter, n - 1, nowMs) + (if Complete(a) then [a] else [])
  }

  /** The loop keeps exactly the complete slots, in slot order. */
  lemma {:induction false} ReadSlotsFilters(home: Prefs, flutter: Prefs, n: nat, nowMs: int)
    ensures ReadSlots(home, flutter, n, nowMs) == CompleteOnly(Slots(home, flutter, n, nowMs))
    decreases n
  {
    if n > 0 {
      ReadSlotsFilters(home, flutter, n - 1, nowMs);
      CompleteOnlySnoc(Slots(home, flutter, n - 1, nowMs), ReadSlot(home, flutter, n - 1, nowMs));
    }
  }

  const CountKey: string := "activities_count"

  /** The count: the HomeWidget value if it reads as an `Int`, else the
      Flutter value (default `0`) if that does, else 0. */
  function ActivitiesCount(home: Prefs, flutter: Prefs): (r: int)
    ensures Int32Min <= r <= Int32Max
  {
    var fromHome := match GetString(home, CountKey, None)
      case Some(s) => KotlinToInt(s)
      case None => None;
    if fromHome.Some? then fromHome.value
    else
      var fromFlutter := match GetString(flutter, FlutterPrefix + CountKey, Some("0"))
        case Some(s) => KotlinToInt(s)
        case None => None;
      if fromFlutter.Some? then fromFlutter.value else 0
  }

  /** A count stored by either side reads back; HomeWidget's wins when it
      is readable, and with neither readable the count is 0. */
  lemma CountReadsBack(home: Prefs, flutter: Prefs, n: int, m: int)
    requires Int32Min <= n <= Int32Max && Int32Min <= m <= Int32Max
    ensures ActivitiesCount(home[CountKey := IntToString(n)], flutter) == n
    ensures CountKey !in home ==> ActivitiesCount(home, flutter[FlutterPrefix + CountKey := IntToString(m)]) == m
    ensures (CountKey !in home || KotlinToInt(home[CountKey]).None?)
      && (FlutterPrefix + CountKey !in flutter || KotlinToInt(flutter[FlutterPrefix + CountKey]).None?)
      ==> ActivitiesCount(home, flutter) == 0
  {
    ParseOfPrinted(n, Int32Min, Int32Max);
    ParseOfPrinted(m, Int32Min, Int32Max);
    assert KotlinToInt("0") == Some(0) by {
      assert DecimalValue("0") == 0;
    }
  }

  // ---------------------------------------------------------------------
  // The widget

  /** `loadActivities`: the list the widget's rows are built from. Every
      complete slot among the first `count` is a row, and nothing else is. */
  function LoadActivities(home: Prefs, flutter: Prefs, nowMs: int): (r: seq<ActivityItem>)
    ensures Sorted(r)
    ensures forall a :: a in r ==> Complete(a)
    ensures |r| <= if ActivitiesCount(home, flutter) > 0 then ActivitiesCount(home, flutter) else 0
    ensures var n := ActivitiesCount(home, flutter);
      multiset(r) == multiset(CompleteOnly(Slots(home, flutter, if n > 0 then n else 0, nowMs)))
  {
    var n := ActivitiesCount(home, flutter);
    var read := ReadSlots(home, flutter, n, nowMs);
    var r := SortActivities(read);
    SortKeepsLength(read);
    ReadSlotsFilters(home, flutter, if n > 0 then n else 0, nowMs);
    forall a | a in r
      ensures Complete(a)
    {
      assert a in multiset(read);
    }
    r
  }

  datatype WidgetState = EmptyState | ListShown

  /** `updateAppWidget`: the list is shown when the count is positive and
      some slot is complete; otherwise the empty state. */
  function UpdateWidget(home: Prefs, flutter: Prefs, nowMs: int): (r: WidgetState)
    ensures r.ListShown? ==> ActivitiesCount(home, flutter) > 0
    ensures r.ListShown? <==> |LoadActivities(home, flutter, nowMs)| > 0
  {
    var n := ActivitiesCount(home, flutter);
    SortKeepsLength(ReadSlots(home, flutter, n, nowMs));
    if n > 0 && |ReadSlots(home, flutter, n, nowMs)| > 0 then ListShown else EmptyState
  }

  /** The provider shows the list exactly when the factory has rows to
      build, and the rows are complete slots, in the sorted order. */
  lemma ProviderAgreesWithFactory(home: Prefs, flutter: Prefs, nowMs: int)
    ensures UpdateWidget(home, flutter, nowMs).ListShown? <==> |LoadActivities(home, flutter, nowMs)| > 0
    ensures forall a :: a in LoadActivities(home, flutter, nowMs) ==>
      Complete(a) && a in Slots(home, flutter, ActivitiesCount(home, flutter), nowMs)
  {
    var n := ActivitiesCount(home, flutter);
    var read := ReadSlots(home, flutter, n, nowMs);
    var load := LoadActivities(home, flutter, nowMs);
    SortKeepsLength(read);
    if n > 0 {
      ReadSlotsFilters(home, flutter, n, nowMs);
      forall a | a in load
        ensures a in read
      {
        assert a in multiset(load);
      }
    } else {
      assert |read| == 0;
    }
  }

  lemma SortKeepsLength(xs: seq<ActivityItem>)
    ensures |SortActivities(xs)| == |xs|
  {
    assert |multiset(SortActivities(xs))| == |multiset(xs)|;
  }
}
