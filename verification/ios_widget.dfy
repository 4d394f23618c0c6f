/** The iOS home-screen widget's data provider (WidgetDataProvider.swift):
    read the app's shared `UserDefaults` suite, build the current track and
    up to ten friend activities from the numbered slots, and describe each
    activity as playing now or played some time ago. The suite is a map
    from keys to strings, or absent when it cannot be opened; the clock
    reading is a parameter. */
module IosWidget {
  import opened Results
  import opened Text
  import opened NumParse
  import AndroidWidget

  datatype FriendActivity = FriendActivity(
    name: string,
    artist: string,
    friendName: string,
    albumArt: string,
    timestamp: int,
    isCurrentlyPlaying: bool,
    activityType: string,
    userId: string)

  // ---------------------------------------------------------------------
  // Status texts

  /** Whole minutes since the activity, where a timestamp that is not
      positive stands for the clock reading itself. Swift traps on an
      overflowing subtraction; with a clock reading at or after the epoch
      none can happen. */
  function DiffMinutes(f: FriendActivity, nowMs: int): (m: int)
    requires IsInt64(f.timestamp) && 0 <= nowMs <= Int64Max
    ensures f.timestamp <= 0 ==> m == 0
    ensures f.timestamp > nowMs ==> m <= 0
    ensures 0 < f.timestamp <= nowMs ==>
      0 <= m && m * AndroidWidget.MillisPerMinute <= nowMs - f.timestamp < (m + 1) * AndroidWidget.MillisPerMinute
  {
    var timestampDate := if f.timestamp > 0 then f.timestamp else nowMs;
    AndroidWidget.MinutesOf(nowMs - timestampDate)
  }

  /** `isRecentOrPlaying`: playing, or less than a minute ago. */
  predicate IsRecentOrPlaying(f: FriendActivity, nowMs: int)
    requires IsInt64(f.timestamp) && 0 <= nowMs <= Int64Max
  {
    f.isCurrentlyPlaying || DiffMinutes(f, nowMs) < 1
  }

  /** `formatTimeAgo`: the `switch` over the minutes, whose `default` also
      catches negative values and a week or more. */
  function FormatTimeAgo(minutes: int): (r: string)
    ensures 0 <= minutes < 1 ==> r == "just now"
    ensures 1 <= minutes < 60 ==> r == NatToString(minutes) + "m ago"
    ensures 60 <= minutes < 1440 ==> exists h: nat :: (1 <= h < 24 && 60 * h <= minutes < 60 * (h + 1)
      && r == NatToString(h) + "h ago")
    ensures -1440 < minutes < 0 ==> r == "0d ago"
    ensures 1440 <= minutes ==> exists d: nat :: (d >= 1 && 1440 * d <= minutes < 1440 * (d + 1)
      && r == NatToString(d) + "d ago")
  {
    if 0 <= minutes < 1 then "just now"
    else if 1 <= minutes < 60 then IntToString(minutes) + "m ago"
    else if 60 <= minutes < 1440 then IntToString(Quot(minutes, 60)) + "h ago"
    else IntToString(Quot(minutes, 1440)) + "d ago"
  }

  const Playlist: string := "playlist"
  const ListeningNow: string := "Listening now"
  const ListeningToPlaylistNow: string := "Listening to playlist now"

  /** `getStatusText`. */
  function StatusText(f: FriendActivity, nowMs: int): (r: string)
    requires IsInt64(f.timestamp) && 0 <= nowMs <= Int64Max
    ensures IsRecentOrPlaying(f, nowMs) && f.activityType == Playlist ==> r == ListeningToPlaylistNow
    ensures IsRecentOrPlaying(f, nowMs) && f.activityType != Playlist ==> r == ListeningNow
    ensures !IsRecentOrPlaying(f, nowMs) ==> StartsWith(r, "Played ")
  {
    if IsRecentOrPlaying(f, nowMs) then
      if f.activityType == Playlist then ListeningToPlaylistNow else ListeningNow
    else
      var t := FormatTimeAgo(DiffMinutes(f, nowMs));
      if f.activityType == Playlist then "Played playlist " + t else "Played " + t
  }

  /** The status text announces listening now exactly when the activity is
      recent or playing; otherwise it names the time since. */
  lemma StatusMatchesRecent(f: FriendActivity, nowMs: int)
    requires IsInt64(f.timestamp) && 0 <= nowMs <= Int64Max
    ensures IsRecentOrPlaying(f, nowMs) <==>
      StatusText(f, nowMs) == ListeningNow || StatusText(f, nowMs) == ListeningToPlaylistNow
  {
    if !IsRecentOrPlaying(f, nowMs) {
      var r := StatusText(f, nowMs);
      assert r[0] == 'P';
      assert ListeningNow[0] == 'L' && ListeningToPlaylistNow[0] == 'L';
    }
  }

  /** A missing timestamp (stored as 0) and a timestamp in the future both
      read as listening now. */
  lemma UndatedOrFutureIsNow(f: FriendActivity, nowMs: int)
    requires IsInt64(f.timestamp) && 0 <= nowMs <= Int64Max
    requires f.timestamp <= 0 || f.timestamp > nowMs
    ensures IsRecentOrPlaying(f, nowMs)
  {
  }

  /** The time labels of a past activity, past the first minute. */
  lemma PlayedLabels(f: FriendActivity, nowMs: int)
    requires IsInt64(f.timestamp) && 0 <= nowMs <= Int64Max
    requires !f.isCurrentlyPlaying && f.activityType != Playlist && 0 < f.timestamp <= nowMs
    ensures var m := DiffMinutes(f, nowMs);
      1 <= m < 60 ==> StatusText(f, nowMs) == "Played " + NatToString(m) + "m ago"
    ensures var m := DiffMinutes(f, nowMs);
      60 <= m < 1440 ==> StatusText(f, nowMs) == "Played " + NatToString(m / 60) + "h ago"
    ensures var m := DiffMinutes(f, nowMs);
      1440 <= m ==> StatusText(f, nowMs) == "Played " + NatToString(m / 1440) + "d ago"
  {
  }

  // ---------------------------------------------------------------------
  // Agreement with the Android widget

  /** The same activity as the Android widget holds it. */
  function ToAndroid(f: FriendActivity): AndroidWidget.ActivityItem {
    AndroidWidget.ActivityItem(f.friendName, f.name, f.artist, f.albumArt,
      f.timestamp, f.isCurrentlyPlaying, f.activityType, f.userId)
  }

  /** Both widgets count the same minutes for a past activity. */
  lemma SameMinutes(f: FriendActivity, nowMs: int)
    requires IsInt64(f.timestamp) && 0 <= nowMs <= Int64Max && 0 < f.timestamp <= nowMs
    ensures DiffMinutes(f, nowMs) == AndroidWidget.ElapsedMinutes(nowMs, f.timestamp)
  {
  }

  /** Between a minute and a week ago, the Android label and the text after
      iOS's "Played " are the same words, up to the capital of "Just now"
      which iOS never shows here. */
  lemma LabelsAgreeWithinAWeek(f: FriendActivity, nowMs: int)
    requires IsInt64(f.timestamp) && 0 <= nowMs <= Int64Max && 0 < f.timestamp <= nowMs
    requires !f.isCurrentlyPlaying && f.activityType != Playlist
    requires 1 <= DiffMinutes(f, nowMs) < 10080
    ensures AndroidWidget.TimeAgoText(ToAndroid(f), nowMs).Label?
    ensures StatusText(f, nowMs) == "Played " + AndroidWidget.TimeAgoText(ToAndroid(f), nowMs).text
  {
    SameMinutes(f, nowMs);
  }

  /** A week or more ago the widgets differ: Android shows the date, iOS
      keeps counting days. */
  lemma LabelsDifferAfterAWeek(f: FriendActivity, nowMs: int)
    requires IsInt64(f.timestamp) && 0 <= nowMs <= Int64Max && 0 < f.timestamp <= nowMs
    requires !f.isCurrentlyPlaying && f.activityType != Playlist
    requires DiffMinutes(f, nowMs) >= 10080
    ensures AndroidWidget.TimeAgoText(ToAndroid(f), nowMs) == AndroidWidget.MonthDay(f.timestamp)
    ensures StatusText(f, nowMs) == "Played " + NatToString(DiffMinutes(f, nowMs) / 1440) + "d ago"
  {
    SameMinutes(f, nowMs);
  }

  // ---------------------------------------------------------------------
  // Reading the suite

  /** The shared suite, or `None` when `UserDefaults(suiteName:)` fails. */
  type Defaults = Option<map<string, string>>

  /** `userDefaults?.string(forKey: key) ?? default`. */
  function Str(d: Defaults, key: string, default: string): (r: string)
    ensures d.None? ==> r == default
    ensures d.Some? && key in d.value ==> r == d.value[key]
    ensures d.Some? && key !in d.value ==> r == default
  {
    match d
    case None => default
    case Some(m) => if key in m then m[key] else default
  }

  datatype CurrentTrack = CurrentTrack(name: string, artist: string, albumArt: string)

  datatype Entry = Entry(currentTrack: CurrentTrack, userName: string, friends: seq<FriendActivity>)

  /** The widget shows at most this many friends. */
  const MaxFriends: int := 10

  /** One slot of the loop body: the fields with their defaults, the
      timestamp read as an `Int64` or else 0, and the playing flag as Swift
      reads a `Bool`. */
  function ReadFriend(d: Defaults, i: nat): (r: FriendActivity)
    ensures IsInt64(r.timestamp)
    ensures r.isCurrentlyPlaying ==>
      var key := AndroidWidget.SlotKey(i, "is_currently_playing");
      d.Some? && key in d.value && d.value[key] == "true"
  {
    var ts := SwiftInt64(Str(d, AndroidWidget.SlotKey(i, "timestamp"), "0"));
    FriendActivity(
      Str(d, AndroidWidget.SlotKey(i, "track"), ""),
      Str(d, AndroidWidget.SlotKey(i, "artist"), ""),
      Str(d, AndroidWidget.SlotKey(i, "name"), ""),
      Str(d, AndroidWidget.SlotKey(i, "album_art"), ""),
      if ts.Some? then ts.value else 0,
      SwiftFlag(Str(d, AndroidWidget.SlotKey(i, "is_currently_playing"), "false")),
      Str(d, AndroidWidget.SlotKey(i, "activity_type"), "track"),
      Str(d, AndroidWidget.SlotKey(i, "user_id"), ""))
  }

  /** A slot with a track is kept; the friend name may be empty. */
  predicate HasTrack(f: FriendActivity) {
    f.name != ""
  }

  /** Slots `0..<n` in order, as read. */
  function Slots(d: Defaults, n: nat): (r: seq<FriendActivity>)
    ensures |r| == n
  {
    if n == 0 then [] else Slots(d, n - 1) + [ReadFriend(d, n - 1)]
  }

  /** The activities of `s` that have a track, in order. */
  function WithTrack(s: seq<FriendActivity>): (r: seq<FriendActivity>)
    ensures forall k :: 0 <= k < |r| ==> HasTrack(r[k])
    ensures forall a :: a in r ==> a in s
    ensures |r| <= |s|
  {
    if |s| == 0 then []
    else (if HasTrack(s[0]) then [s[0]] else []) + WithTrack(s[1..])
  }

  lemma {:induction false} WithTrackAppend(a: seq<FriendActivity>, b: seq<FriendActivity>)
    ensures WithTrack(a + b) == WithTrack(a) + WithTrack(b)
    decreases |a|
  {
    if |a| > 0 {
      assert (a + b)[1..] == a[1..] + b;
      WithTrackAppend(a[1..], b);
    } else {
      assert a + b == b;
    }
  }

  lemma WithTrackSnoc(s: seq<FriendActivity>, f: FriendActivity)
    ensures WithTrack(s + [f]) == WithTrack(s) + if HasTrack(f) then [f] else []
  {
    WithTrackAppend(s, [f]);
    assert WithTrack([f]) == (if HasTrack(f) then [f] else []) + WithTrack([]);
  }

  /** The loop `for i in 0..<n` appending every slot with a track. */
  function ReadFriends(d: Defaults, n: nat): (r: seq<FriendActivity>)
    ensures forall k :: 0 <= k < |r| ==> HasTrack(r[k])
    ensures |r| <= n
  {
    if n == 0 then []
    else
      var f := ReadFriend(d, n - 1);
      ReadFriends(d, n - 1) + (if HasTrack(f) then [f] else [])
  }

  /** The loop keeps exactly the slots with a track, in slot order. */
  lemma {:induction false} ReadFriendsFilters(d: Defaults, n: nat)
    ensures ReadFriends(d, n) == WithTrack(Slots(d, n))
    decreases n
  {
    if n > 0 {
      ReadFriendsFilters(d, n - 1);
      WithTrackSnoc(Slots(d, n - 1), ReadFriend(d, n - 1));
    }
  }

  /** `Int(activitiesCount) ?? 0`, with `"0"` when the key is missing. */
  function Count(d: Defaults): (c: int)
    ensures IsInt64(c)
  {
    match SwiftInt64(Str(d, "activities_count", "0"))
    case Some(v) => v
    case None => 0
  }

  function CurrentTrackOf(d: Defaults): CurrentTrack {
    CurrentTrack(Str(d, "current_track_name", ""), Str(d, "current_artist_name", ""),
      Str(d, "current_album_art", ""))
  }

  /** `createEntry` as written: `min(count, 10)` bounds the range `0..<`,
      and a negative bound is a runtime trap (`None`). */
  function CreateEntryAsWritten(d: Defaults): (r: Option<Entry>)
    ensures r.None? <==> Count(d) < 0
  {
    var maxFriends := if Count(d) < MaxFriends then Count(d) else MaxFriends;
    if maxFriends < 0 then None
    else Some(Entry(CurrentTrackOf(d), Str(d, "user_name", "User"), ReadFriends(d, maxFriends)))
  }

  /** The number of slots read: the count, at most ten and at least none. */
  function SlotsToRead(d: Defaults): (n: nat)
    ensures n <= MaxFriends
    ensures 0 <= Count(d) <= MaxFriends ==> n == Count(d)
    ensures Count(d) > MaxFriends ==> n == MaxFriends
    ensures Count(d) < 0 ==> n == 0
  {
    if Count(d) < 0 then 0 else if Count(d) < MaxFriends then Count(d) else MaxFriends
  }

  /** `createEntry` with a negative count read as no friends. */
  function CreateEntry(d: Defaults): (e: Entry)
    ensures |e.friends| <= MaxFriends
    ensures forall k :: 0 <= k < |e.friends| ==> HasTrack(e.friends[k])
    ensures e.userName == "User" <== d.None? || "user_name" !in d.value
  {
    Entry(CurrentTrackOf(d), Str(d, "user_name", "User"), ReadFriends(d, SlotsToRead(d)))
  }

  /** Without the suite the entry is the empty one. */
  lemma NoSuiteGivesDefaults()
    ensures CreateEntry(None) == Entry(CurrentTrack("", "", ""), "User", [])
  {
    assert SwiftInt64("0") == Some(0) by {
      assert DecimalValue("0") == 0;
    }
  }

  /** The friends shown are the slots with a track among the first
      `SlotsToRead` slots, in slot order. */
  lemma EntryFriends(d: Defaults)
    ensures CreateEntry(d).friends == WithTrack(Slots(d, SlotsToRead(d)))
  {
    ReadFriendsFilters(d, SlotsToRead(d));
  }

  /** As written and corrected agree whenever the count is not negative;
      a negative count traps as written. */
  lemma CorrectedAgreesWhereDefined(d: Defaults)
    ensures Count(d) >= 0 ==> CreateEntryAsWritten(d) == Some(CreateEntry(d))
    ensures Count(d) < 0 ==> CreateEntryAsWritten(d).None? && CreateEntry(d).friends == []
  {
  }

  /** A concrete suite holding `activities_count = "-1"` traps as written. */
  lemma MinusOneCountTraps()
    ensures CreateEntryAsWritten(Some(map["activities_count" := "-1"])).None?
    ensures CreateEntry(Some(map["activities_count" := "-1"])).friends == []
  {
    var d: Defaults := Some(map["activities_count" := "-1"]);
    assert Str(d, "activities_count", "0") == "-1";
    assert "-1"[1..] == "1" && DecimalValue("1") == 1;
    assert SwiftInt64("-1") == Some(-1);
  }

  // ---------------------------------------------------------------------
  // Writing a slot

  /** The slot as the app stores it: every field under its key, the
      timestamp in decimal and the flag as `true` or `false`. */
  function WriteFriend(m: map<string, string>, i: nat, f: FriendActivity): map<string, string> {
    m[AndroidWidget.SlotKey(i, "track") := f.name]
     [AndroidWidget.SlotKey(i, "artist") := f.artist]
     [AndroidWidget.SlotKey(i, "name") := f.friendName]
     [AndroidWidget.SlotKey(i, "album_art") := f.albumArt]
     [AndroidWidget.SlotKey(i, "timestamp") := IntToString(f.timestamp)]
     [AndroidWidget.SlotKey(i, "is_currently_playing") := if f.isCurrentlyPlaying then "true" else "false"]
     [AndroidWidget.SlotKey(i, "activity_type") := f.activityType]
     [AndroidWidget.SlotKey(i, "user_id") := f.userId]
  }

  /** Every field of a written slot is stored under its own key. */
  lemma WrittenFields(m: map<string, string>, i: nat, f: FriendActivity)
    ensures AndroidWidget.SlotKey(i, "track") in WriteFriend(m, i, f) && WriteFriend(m, i, f)[AndroidWidget.SlotKey(i, "track")] == f.name
    ensures AndroidWidget.SlotKey(i, "artist") in WriteFriend(m, i, f) && WriteFriend(m, i, f)[AndroidWidget.SlotKey(i, "artist")] == f.artist
    ensures AndroidWidget.SlotKey(i, "name") in WriteFriend(m, i, f) && WriteFriend(m, i, f)[AndroidWidget.SlotKey(i, "name")] == f.friendName
    ensures AndroidWidget.SlotKey(i, "album_art") in WriteFriend(m, i, f) && WriteFriend(m, i, f)[AndroidWidget.SlotKey(i, "album_art")] == f.albumArt
    ensures AndroidWidget.SlotKey(i, "timestamp") in WriteFriend(m, i, f) && WriteFriend(m, i, f)[AndroidWidget.SlotKey(i, "timestamp")] == IntToString(f.timestamp)
    ensures AndroidWidget.SlotKey(i, "is_currently_playing") in WriteFriend(m, i, f) && WriteFriend(m, i, f)[AndroidWidget.SlotKey(i, "is_currently_playing")] == (if f.isCurrentlyPlaying then "true" else "false")
    ensures AndroidWidget.SlotKey(i, "activity_type") in WriteFriend(m, i, f) && WriteFriend(m, i, f)[AndroidWidget.SlotKey(i, "activity_type")] == f.activityType
    ensures AndroidWidget.SlotKey(i, "user_id") in WriteFriend(m, i, f) && WriteFriend(m, i, f)[AndroidWidget.SlotKey(i, "user_id")] == f.userId
  {
    WrittenFront(m, i, f);
    WrittenBack(m, i, f);
  }

  lemma WrittenFront(m: map<string, string>, i: nat, f: FriendActivity)
    ensures AndroidWidget.SlotKey(i, "track") in WriteFriend(m, i, f) && WriteFriend(m, i, f)[AndroidWidget.SlotKey(i, "track")] == f.name
    ensures AndroidWidget.SlotKey(i, "artist") in WriteFriend(m, i, f) && WriteFriend(m, i, f)[AndroidWidget.SlotKey(i, "artist")] == f.artist
    ensures AndroidWidget.SlotKey(i, "name") in WriteFriend(m, i, f) && WriteFriend(m, i, f)[AndroidWidget.SlotKey(i, "name")] == f.friendName
    ensures AndroidWidget.SlotKey(i, "album_art") in WriteFriend(m, i, f) && WriteFriend(m, i, f)[AndroidWidget.SlotKey(i, "album_art")] == f.albumArt
  {
    WrittenTrack(m, i, f);
    WrittenArtist(m, i, f);
    WrittenName(m, i, f);
    WrittenAlbumArt(m, i, f);
  }

  lemma WrittenTrack(m: map<string, string>, i: nat, f: FriendActivity)
    ensures AndroidWidget.SlotKey(i, "track") in WriteFriend(m, i, f) && WriteFriend(m, i, f)[AndroidWidget.SlotKey(i, "track")] == f.name
  {
    AndroidWidget.KeysDiffer(i, "track", "artist");
    AndroidWidget.KeysDiffer(i, "track", "name");
    AndroidWidget.KeysDiffer(i, "track", "album_art");
    AndroidWidget.KeysDiffer(i, "track", "timestamp");
    AndroidWidget.KeysDiffer(i, "track", "is_currently_playing");
    AndroidWidget.KeysDiffer(i, "track", "activity_type");
    AndroidWidget.KeysDiffer(i, "track", "user_id");
  }

  lemma WrittenArtist(m: map<string, string>, i: nat, f: FriendActivity)
    ensures AndroidWidget.SlotKey(i, "artist") in WriteFriend(m, i, f) && WriteFriend(m, i, f)[AndroidWidget.SlotKey(i, "artist")] == f.artist
  {
    AndroidWidget.KeysDiffer(i, "artist", "name");
    AndroidWidget.KeysDiffer(i, "artist", "album_art");
    AndroidWidget.KeysDiffer(i, "artist", "timestamp");
    AndroidWidget.KeysDiffer(i, "artist", "is_currently_playing");
    AndroidWidget.KeysDiffer(i, "artist", "activity_type");
    AndroidWidget.KeysDiffer(i, "artist", "user_id");
  }

  lemma WrittenName(m: map<string, string>, i: nat, f: FriendActivity)
    ensures AndroidWidget.SlotKey(i, "name") in WriteFriend(m, i, f) && WriteFriend(m, i, f)[AndroidWidget.SlotKey(i, "name")] == f.friendName
  {
    AndroidWidget.KeysDiffer(i, "name", "album_art");
    AndroidWidget.KeysDiffer(i, "name", "timestamp");
    AndroidWidget.KeysDiffer(i, "name", "is_currently_playing");
    AndroidWidget.KeysDiffer(i, "name", "activity_type");
    AndroidWidget.KeysDiffer(i, "name", "user_id");
  }

  lemma WrittenAlbumArt(m: map<string, string>, i: nat, f: FriendActivity)
    ensures AndroidWidget.SlotKey(i, "album_art") in WriteFriend(m, i, f) && WriteFriend(m, i, f)[AndroidWidget.SlotKey(i, "album_art")] == f.albumArt
  {
    AndroidWidget.KeysDiffer(i, "album_art", "timestamp");
    AndroidWidget.KeysDiffer(i, "album_art", "is_currently_playing");
    AndroidWidget.KeysDiffer(i, "album_art", "activity_type");
    AndroidWidget.KeysDiffer(i, "album_art", "user_id");
  }

  lemma WrittenBack(m: map<string, string>, i: nat, f: FriendActivity)
    ensures AndroidWidget.SlotKey(i, "timestamp") in WriteFriend(m, i, f) && WriteFriend(m, i, f)[AndroidWidget.SlotKey(i, "timestamp")] == IntToString(f.timestamp)
    ensures AndroidWidget.SlotKey(i, "is_currently_playing") in WriteFriend(m, i, f) && WriteFriend(m, i, f)[AndroidWidget.SlotKey(i, "is_currently_playing")] == (if f.isCurrentlyPlaying then "true" else "false")
    ensures AndroidWidget.SlotKey(i, "activity_type") in WriteFriend(m, i, f) && WriteFriend(m, i, f)[AndroidWidget.SlotKey(i, "activity_type")] == f.activityType
    ensures AndroidWidget.SlotKey(i, "user_id") in WriteFriend(m, i, f) && WriteFriend(m, i, f)[AndroidWidget.SlotKey(i, "user_id")] == f.userId
  {
    AndroidWidget.KeysDiffer(i, "timestamp", "is_currently_playing");
    AndroidWidget.KeysDiffer(i, "timestamp", "activity_type");
    AndroidWidget.KeysDiffer(i, "timestamp", "user_id");
    AndroidWidget.KeysDiffer(i, "is_currently_playing", "activity_type");
    AndroidWidget.KeysDiffer(i, "is_currently_playing", "user_id");
    AndroidWidget.KeysDiffer(i, "activity_type", "user_id");
  }

  /** A stored slot reads back as the activity it was stored from. */
  lemma FriendRoundTrip(m: map<string, string>, i: nat, f: FriendActivity)
    requires IsInt64(f.timestamp)
    ensures ReadFriend(Some(WriteFriend(m, i, f)), i) == f
  {
    WrittenFields(m, i, f);
    ParseOfPrinted(f.timestamp, Int64Min, Int64Max);
  }
}
