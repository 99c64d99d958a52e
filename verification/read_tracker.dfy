/**
 The announcement read-tracker of the site header: a key per announcement,
 the unread count and unread key list computed against the read keys kept in
 `localStorage`, and the acknowledge-on-close step that merges every current
 key into that stored list.

 `localStorage` is threaded through explicitly: every operation takes the
 header state (storage, unread count, notice visibility) and returns the next
 one, or reports the TypeError the code lets escape.
 */
module ReadTracker {
  import opened Js
  import opened Seqs

  /** Name of the `localStorage` entry holding the JSON list of read keys. */
  const ReadKeysEntry: string := "notice_read_keys"

  /** Number of leading content characters that enter a key. */
  const KeyContentLength: nat := 30

  /** An announcement as supplied by the status provider. */
  datatype Announcement = Announcement(publishDate: Option<string>, content: Option<string>)

  /** The content part of a key (`getAnnouncementKey`): at most the first 30
      characters of the content, or the empty string when it is absent. */
  function ContentPrefix(a: Announcement): (p: string)
    ensures |p| <= KeyContentLength
    ensures p <= a.content.GetOr("")
  {
    var c := a.content.GetOr("");
    if |c| <= KeyContentLength then c else c[..KeyContentLength]
  }

  /** `getAnnouncementKey`: publish date, a dash, then the content prefix. */
  function AnnouncementKey(a: Announcement): (k: string)
    ensures |k| == |a.publishDate.GetOr("")| + 1 + |ContentPrefix(a)|
    ensures a.publishDate.GetOr("") <= k
    ensures k[|a.publishDate.GetOr("")|] == '-'
  {
    a.publishDate.GetOr("") + "-" + ContentPrefix(a)
  }

  /** The keys of a list of announcements, in list order. */
  function Keys(anns: seq<Announcement>): (ks: seq<string>)
    ensures |ks| == |anns|
    ensures forall i :: 0 <= i < |anns| ==> ks[i] == AnnouncementKey(anns[i])
    decreases |anns|
  {
    if anns == [] then []
    else Keys(anns[..|anns| - 1]) + [AnnouncementKey(anns[|anns| - 1])]
  }

  /** Every announcement's key is among the keys of its list. */
  lemma KeysCover(anns: seq<Announcement>)
    ensures forall a :: a in anns ==> AnnouncementKey(a) in Keys(anns)
  {
    forall a | a in anns ensures AnnouncementKey(a) in Keys(anns) {
      var i :| 0 <= i < |anns| && anns[i] == a;
      assert Keys(anns)[i] == AnnouncementKey(a);
    }
  }

  /** The set the loaded read keys are turned into before lookups. */
  function ReadSet(readKeys: seq<string>): (s: set<string>)
    ensures forall k :: k in s <==> k in readKeys
  {
    set k | k in readKeys
  }

  /**
   The stored read keys as the three read sites load them: an absent or
   malformed entry and any falsy JSON value read as no keys; an array reads
   as its elements and a string as its characters; any other truthy value
   (`true`, a non-zero number, an object) makes the later iteration throw.
   */
  function ReadStoredKeys(storage: Storage): (r: Result<seq<string>>)
    ensures GetItem(storage, ReadKeysEntry).None? ==> r == Ok([])
    ensures GetItem(storage, ReadKeysEntry) == Some(Malformed) ==> r == Ok([])
    ensures ReadKeysEntry in storage && storage[ReadKeysEntry].Json? && !Truthy(storage[ReadKeysEntry].value) ==>
              r == Ok([])
    ensures ReadKeysEntry in storage && storage[ReadKeysEntry].Json? && storage[ReadKeysEntry].value.JArray? ==>
              r == Ok(storage[ReadKeysEntry].value.items)
    ensures ReadKeysEntry in storage && storage[ReadKeysEntry].Json? && storage[ReadKeysEntry].value.JString? ==>
              r == Ok(Chars(storage[ReadKeysEntry].value.s))
    ensures r.Throws? <==>
              (ReadKeysEntry in storage && storage[ReadKeysEntry].Json? &&
               var v := storage[ReadKeysEntry].value;
               Truthy(v) && !v.JArray? && !v.JString?)
  {
    Iterate(ParseOrEmpty(GetItem(storage, ReadKeysEntry)))
  }

  /** The announcements whose key is not in the read-set, in list order
      (the filter shared by `calculateUnreadCount` and `getUnreadKeys`). */
  function Unread(anns: seq<Announcement>, readSet: set<string>): (u: seq<Announcement>)
    ensures forall a :: a in u <==> a in anns && AnnouncementKey(a) !in readSet
    ensures |u| <= |anns|
    decreases |anns|
  {
    if anns == [] then []
    else
      var init := anns[..|anns| - 1];
      var last := anns[|anns| - 1];
      assert anns == init + [last];
      var rest := Unread(init, readSet);
      if AnnouncementKey(last) in readSet then rest else rest + [last]
  }

  /**
   `calculateUnreadCount`: 0 for an empty list without touching storage;
   otherwise the number of announcements whose key has not been read.
   */
  function CalculateUnreadCount(anns: seq<Announcement>, storage: Storage): (r: Result<nat>)
    ensures |anns| == 0 ==> r == Ok(0)
    ensures |anns| > 0 ==> (r.Throws? <==> ReadStoredKeys(storage).Throws?)
    ensures r.Ok? ==> r.value <= |anns|
  {
    if |anns| == 0 then Ok(0)
    else
      match ReadStoredKeys(storage)
      case Throws(f) => Throws(f)
      case Ok(readKeys) => Ok(|Unread(anns, ReadSet(readKeys))|)
  }

  /**
   `getUnreadKeys`: `[]` for an empty list without touching storage;
   otherwise the keys of the announcements whose key has not been read.
   */
  function GetUnreadKeys(anns: seq<Announcement>, storage: Storage): (r: Result<seq<string>>)
    ensures |anns| == 0 ==> r == Ok([])
    ensures |anns| > 0 ==> (r.Throws? <==> ReadStoredKeys(storage).Throws?)
    ensures r.Ok? && ReadStoredKeys(storage).Ok? ==>
              forall k :: k in r.value ==> k !in ReadStoredKeys(storage).value
  {
    if |anns| == 0 then Ok([])
    else
      match ReadStoredKeys(storage)
      case Throws(f) => Throws(f)
      case Ok(readKeys) => Ok(Keys(Unread(anns, ReadSet(readKeys))))
  }

  /** The header's tracker state: storage, the displayed unread count and
      whether the notice modal is open. */
  datatype Header = Header(storage: Storage, unreadCount: nat, noticeVisible: bool)

  /** A state change that completed, or one that threw after some effects. */
  datatype Step = Done(header: Header) | Threw(header: Header, fault: Fault)

  /** `handleNoticeOpen`. */
  function NoticeOpen(h: Header): (h': Header)
    ensures h'.noticeVisible
    ensures h'.storage == h.storage && h'.unreadCount == h.unreadCount
  {
    h.(noticeVisible := true)
  }

  /** The effect that stores `calculateUnreadCount()` as the displayed count. */
  function Refresh(h: Header, anns: seq<Announcement>): (o: Step)
    ensures o.header.storage == h.storage && o.header.noticeVisible == h.noticeVisible
    ensures o.Done? <==> CalculateUnreadCount(anns, h.storage).Ok?
    ensures o.Done? ==> o.header.unreadCount == CalculateUnreadCount(anns, h.storage).value
    ensures o.Threw? ==> o.header == h
  {
    match CalculateUnreadCount(anns, h.storage)
    case Ok(n) => Done(h.(unreadCount := n))
    case Throws(f) => Threw(h, f)
  }

  /**
   `handleNoticeClose`: hides the notice; with a non-empty list, merges the
   stored keys with the keys of every current announcement, keeping first
   occurrences in order, and writes the result back; then resets the count.
   If the stored value cannot be iterated, the TypeError escapes after the
   hide and before the write and the reset.
   */
  function NoticeClose(h: Header, anns: seq<Announcement>): (o: Step)
    ensures !o.header.noticeVisible
    ensures o.Threw? <==> |anns| > 0 && ReadStoredKeys(h.storage).Throws?
    ensures o.Threw? ==> o.header == h.(noticeVisible := false)
    ensures o.Done? ==> o.header.unreadCount == 0
    ensures |anns| == 0 ==> o.header.storage == h.storage
    ensures forall name :: name != ReadKeysEntry ==>
              GetItem(o.header.storage, name) == GetItem(h.storage, name)
  {
    var hidden := h.(noticeVisible := false);
    if |anns| == 0 then Done(hidden.(unreadCount := 0))
    else
      match ReadStoredKeys(h.storage)
      case Throws(f) => Threw(hidden, f)
      case Ok(readKeys) =>
        var merged := Dedup(readKeys + Keys(anns));
        Done(hidden.(storage := h.storage[ReadKeysEntry := Json(JArray(merged))], unreadCount := 0))
  }

  // ---------------------------------------------------------------------
  // Keys

  /**
   The key of an announcement is its publish date (empty when absent), a
   dash, then the first min(30, length) characters of its content (empty
   when absent).
   */
  lemma KeyShape(a: Announcement)
    ensures var k := AnnouncementKey(a);
            var d := a.publishDate.GetOr("");
            var c := a.content.GetOr("");
            var n := if |c| < KeyContentLength then |c| else KeyContentLength;
            && |k| == |d| + 1 + n
            && k[..|d|] == d
            && k[|d|] == '-'
            && k[|d| + 1..] == c[..n]
  {
    var d := a.publishDate.GetOr("");
    var p := ContentPrefix(a);
    assert AnnouncementKey(a) == d + "-" + p;
    assert (d + "-" + p)[|d| + 1..] == p;
  }

  /** Announcements agreeing on the date and the 30-character content
      prefix share a key, whatever follows in the content. */
  lemma KeyCollision(a: Announcement, b: Announcement)
    requires a.publishDate.GetOr("") == b.publishDate.GetOr("")
    requires ContentPrefix(a) == ContentPrefix(b)
    ensures AnnouncementKey(a) == AnnouncementKey(b)
  {
  }

  /** Distinct announcements can share a key because only 30 content
      characters are kept. */
  lemma KeyTruncationCollides()
    ensures var a := Announcement(Some("2024-01-01"), Some("Scheduled maintenance tonight: part one"));
            var b := Announcement(Some("2024-01-01"), Some("Scheduled maintenance tonight: part two"));
            a != b && AnnouncementKey(a) == AnnouncementKey(b)
  {
    var a := Announcement(Some("2024-01-01"), Some("Scheduled maintenance tonight: part one"));
    var b := Announcement(Some("2024-01-01"), Some("Scheduled maintenance tonight: part two"));
    assert ContentPrefix(a) == ContentPrefix(b);
    assert a.content != b.content by {
      assert a.content.value[36] != b.content.value[36];
    }
  }

  /** The dash is not escaped: a date ending where the content begins can
      collide with a shorter date whose content starts with a dash. */
  lemma KeySeparatorCollides()
    ensures var a := Announcement(Some("2024-01"), Some("01-notice"));
            var b := Announcement(Some("2024-01-01"), Some("notice"));
            a != b && AnnouncementKey(a) == AnnouncementKey(b)
  {
    var a := Announcement(Some("2024-01"), Some("01-notice"));
    var b := Announcement(Some("2024-01-01"), Some("notice"));
    assert a.publishDate != b.publishDate by {
      assert |a.publishDate.value| != |b.publishDate.value|;
    }
    assert AnnouncementKey(a) == "2024-01" + "-" + "01-notice";
    assert AnnouncementKey(b) == "2024-01-01" + "-" + "notice";
  }

  /** A missing field and an empty one give the same key. */
  lemma MissingFieldsReadAsEmpty(a: Announcement)
    ensures AnnouncementKey(Announcement(None, a.content)) == AnnouncementKey(Announcement(Some(""), a.content))
    ensures AnnouncementKey(Announcement(a.publishDate, None)) == AnnouncementKey(Announcement(a.publishDate, Some("")))
    ensures AnnouncementKey(Announcement(None, None)) == "-"
  {
  }

  // ---------------------------------------------------------------------
  // Unread computation

  /** Filtering announcements and then taking keys equals taking keys and
      then dropping the read ones. */
  lemma {:induction false} UnreadKeysAreUnreadFilteredKeys(anns: seq<Announcement>, readSet: set<string>)
    ensures Keys(Unread(anns, readSet)) == Without(Keys(anns), readSet)
    decreases |anns|
  {
    if anns != [] {
      var init := anns[..|anns| - 1];
      var last := anns[|anns| - 1];
      UnreadKeysAreUnreadFilteredKeys(init, readSet);
      assert Keys(anns)[..|anns| - 1] == Keys(init);
      var rest := Unread(init, readSet);
      if AnnouncementKey(last) !in readSet {
        assert Unread(anns, readSet) == rest + [last];
        assert (rest + [last])[..|rest|] == rest;
      }
    }
  }

  /**
   The count and the key list agree: both throw together, and otherwise the
   count is the length of the list, which is the announcement keys, in
   order, minus the read ones.
   */
  lemma CountMatchesUnreadKeys(anns: seq<Announcement>, storage: Storage)
    ensures CalculateUnreadCount(anns, storage).Ok? <==> GetUnreadKeys(anns, storage).Ok?
    ensures CalculateUnreadCount(anns, storage).Ok? ==>
              CalculateUnreadCount(anns, storage).value == |GetUnreadKeys(anns, storage).value|
    ensures GetUnreadKeys(anns, storage).Ok? && |anns| > 0 ==>
              GetUnreadKeys(anns, storage).value == Without(Keys(anns), ReadSet(ReadStoredKeys(storage).value))
    ensures GetUnreadKeys(anns, storage).Ok? ==> IsSubsequence(GetUnreadKeys(anns, storage).value, Keys(anns))
  {
    if |anns| > 0 && ReadStoredKeys(storage).Ok? {
      var rs := ReadSet(ReadStoredKeys(storage).value);
      UnreadKeysAreUnreadFilteredKeys(anns, rs);
      WithoutIsSubsequence(Keys(anns), rs);
    }
  }

  /** An announcement is listed as unread exactly when its key has not been read. */
  lemma UnreadKeyMembership(anns: seq<Announcement>, storage: Storage, a: Announcement)
    requires |anns| > 0 && ReadStoredKeys(storage).Ok?
    ensures a in anns ==>
              (AnnouncementKey(a) in GetUnreadKeys(anns, storage).value
               <==> AnnouncementKey(a) !in ReadStoredKeys(storage).value)
  {
    var rs := ReadSet(ReadStoredKeys(storage).value);
    UnreadKeysAreUnreadFilteredKeys(anns, rs);
    if a in anns {
      var i :| 0 <= i < |anns| && anns[i] == a;
      assert Keys(anns)[i] == AnnouncementKey(a);
    }
  }

  /** With nothing read, every announcement is unread. */
  lemma NothingReadAllUnread(anns: seq<Announcement>, storage: Storage)
    requires ReadStoredKeys(storage) == Ok([])
    ensures GetUnreadKeys(anns, storage) == Ok(Keys(anns))
    ensures CalculateUnreadCount(anns, storage) == Ok(|anns|)
  {
    assert ReadSet([]) == {};
    CountMatchesUnreadKeys(anns, storage);
    WithoutNothing(Keys(anns));
  }

  /**
   A missing or malformed entry, or a parsed value that is falsy (`null`,
   `false`, `0`, the empty string), reads as the empty read-set and never
   throws.
   */
  lemma SoftFailureReadsAsEmpty(anns: seq<Announcement>, storage: Storage)
    requires ReadKeysEntry !in storage || storage[ReadKeysEntry] == Malformed ||
             (storage[ReadKeysEntry].Json? && !Truthy(storage[ReadKeysEntry].value))
    ensures ReadStoredKeys(storage) == Ok([])
    ensures CalculateUnreadCount(anns, storage) == Ok(|anns|)
    ensures GetUnreadKeys(anns, storage) == Ok(Keys(anns))
  {
    NothingReadAllUnread(anns, storage);
  }

  /**
   A parsed value that is truthy but neither an array nor a string (`true`,
   a non-zero number, an object) is not guarded against: with announcements
   present both read sites throw.
   */
  lemma NonArrayValueThrows(anns: seq<Announcement>, storage: Storage, v: JsonValue)
    requires |anns| > 0
    requires ReadKeysEntry in storage && storage[ReadKeysEntry] == Json(v)
    requires Truthy(v) && !v.JArray? && !v.JString?
    ensures CalculateUnreadCount(anns, storage).Throws?
    ensures GetUnreadKeys(anns, storage).Throws?
  {
  }

  /**
   A stored JSON string is not rejected either: it is read as the list of
   its characters. The stored string "-" therefore marks an announcement
   with neither date nor content as read.
   */
  lemma StoredStringReadsAsCharacters(storage: Storage)
    requires ReadKeysEntry in storage && storage[ReadKeysEntry] == Json(JString("-"))
    ensures ReadStoredKeys(storage) == Ok(["-"])
    ensures CalculateUnreadCount([Announcement(None, None)], storage) == Ok(0)
  {
    assert Chars("-") == ["-"];
    assert AnnouncementKey(Announcement(None, None)) == "-";
    NoUnreadIffAllRead([Announcement(None, None)], storage);
  }

  /** The count is zero exactly when every announcement's key has been read. */
  lemma NoUnreadIffAllRead(anns: seq<Announcement>, storage: Storage)
    requires ReadStoredKeys(storage).Ok?
    ensures CalculateUnreadCount(anns, storage) == Ok(0) <==>
              forall a :: a in anns ==> AnnouncementKey(a) in ReadStoredKeys(storage).value
  {
    if |anns| > 0 {
      var rs := ReadSet(ReadStoredKeys(storage).value);
      var u := Unread(anns, rs);
      if |u| != 0 {
        assert u[0] in u;
      }
    }
  }

  // ---------------------------------------------------------------------
  // Acknowledge on close

  /** What close writes reads back as the list written. */
  lemma ReadBackWrittenKeys(storage: Storage, keys: seq<string>)
    ensures ReadStoredKeys(storage[ReadKeysEntry := Json(JArray(keys))]) == Ok(keys)
  {
  }

  /**
   After a completed close with announcements present, the stored list is
   exactly the first-occurrence deduplication of the old keys followed by
   the current keys: it holds every old key and every current key, nothing
   else, and no key twice.
   */
  lemma CloseMergesReadKeys(h: Header, anns: seq<Announcement>)
    requires |anns| > 0 && ReadStoredKeys(h.storage).Ok?
    ensures NoticeClose(h, anns).Done?
    ensures NoticeClose(h, anns).header.storage ==
              h.storage[ReadKeysEntry := Json(JArray(Dedup(ReadStoredKeys(h.storage).value + Keys(anns))))]
    ensures ReadStoredKeys(NoticeClose(h, anns).header.storage) ==
              Ok(Dedup(ReadStoredKeys(h.storage).value + Keys(anns)))
    ensures NoDuplicates(ReadStoredKeys(NoticeClose(h, anns).header.storage).value)
    ensures forall k :: k in ReadStoredKeys(h.storage).value ==>
              k in ReadStoredKeys(NoticeClose(h, anns).header.storage).value
    ensures forall a :: a in anns ==>
              AnnouncementKey(a) in ReadStoredKeys(NoticeClose(h, anns).header.storage).value
    ensures forall k :: k in ReadStoredKeys(NoticeClose(h, anns).header.storage).value ==>
              k in ReadStoredKeys(h.storage).value || k in Keys(anns)
  {
    var stored := ReadStoredKeys(h.storage).value;
    var merged := Dedup(stored + Keys(anns));
    var written := h.storage[ReadKeysEntry := Json(JArray(merged))];
    assert NoticeClose(h, anns) == Done(Header(written, 0, false));
    ReadBackWrittenKeys(h.storage, merged);
    DedupKeepsBoth(stored, Keys(anns));
    KeysCover(anns);
  }

  /** Closing twice with the same announcements is the same as closing once. */
  lemma CloseIdempotent(h: Header, anns: seq<Announcement>)
    ensures NoticeClose(NoticeClose(h, anns).header, anns) == NoticeClose(h, anns)
  {
    var once := NoticeClose(h, anns);
    if |anns| > 0 && ReadStoredKeys(h.storage).Ok? {
      CloseMergesReadKeys(h, anns);
      var merged := Dedup(ReadStoredKeys(h.storage).value + Keys(anns));
      var written := once.header.storage;
      assert once == Done(Header(written, 0, false));
      assert ReadStoredKeys(written) == Ok(merged);
      forall k | k in Keys(anns) ensures k in merged {
        var i :| 0 <= i < |anns| && Keys(anns)[i] == k;
        assert anns[i] in anns;
      }
      DedupAbsorbs(merged, Keys(anns));
      DedupOfDistinct(merged);
      CloseMergesReadKeys(once.header, anns);
      assert written[ReadKeysEntry := Json(JArray(merged))] == written;
    }
  }

  /** After a completed close, recomputing over the same announcements finds
      nothing unread, and the count stays 0. */
  lemma CloseLeavesNothingUnread(h: Header, anns: seq<Announcement>)
    requires NoticeClose(h, anns).Done?
    ensures CalculateUnreadCount(anns, NoticeClose(h, anns).header.storage) == Ok(0)
    ensures GetUnreadKeys(anns, NoticeClose(h, anns).header.storage) == Ok([])
    ensures Refresh(NoticeClose(h, anns).header, anns) == NoticeClose(h, anns)
  {
    var after := NoticeClose(h, anns).header.storage;
    if |anns| > 0 {
      CloseMergesReadKeys(h, anns);
      NoUnreadIffAllRead(anns, after);
      CountMatchesUnreadKeys(anns, after);
    }
  }

  /** The read-set only grows on close. */
  lemma CloseKeepsOldReadKeys(h: Header, anns: seq<Announcement>)
    requires NoticeClose(h, anns).Done? && ReadStoredKeys(h.storage).Ok?
    ensures ReadStoredKeys(NoticeClose(h, anns).header.storage).Ok?
    ensures ReadSet(ReadStoredKeys(h.storage).value) <=
              ReadSet(ReadStoredKeys(NoticeClose(h, anns).header.storage).value)
  {
    if |anns| > 0 {
      CloseMergesReadKeys(h, anns);
    }
  }

  // ---------------------------------------------------------------------
  // Scenarios

  /** The single maintenance announcement used by the scenarios below. */
  function MaintenanceNotice(): seq<Announcement> {
    [Announcement(Some("2024-01-01"), Some("Maintenance window"))]
  }

  /** With nothing stored, the one fresh announcement is unread. */
  lemma MaintenanceUnreadScenario(h: Header)
    requires ReadKeysEntry !in h.storage
    ensures GetUnreadKeys(MaintenanceNotice(), h.storage) == Ok(["2024-01-01-Maintenance window"])
    ensures CalculateUnreadCount(MaintenanceNotice(), h.storage) == Ok(1)
  {
    SoftFailureReadsAsEmpty(MaintenanceNotice(), h.storage);
    MaintenanceKeys();
  }

  /** The key list of the maintenance announcement. */
  lemma MaintenanceKeys()
    ensures Keys(MaintenanceNotice()) == ["2024-01-01-Maintenance window"]
  {
    var a := MaintenanceNotice()[0];
    assert ContentPrefix(a) == "Maintenance window";
    assert AnnouncementKey(a) == "2024-01-01" + "-" + "Maintenance window";
    assert "2024-01-01" + "-" + "Maintenance window" == "2024-01-01-Maintenance window";
    assert Keys(MaintenanceNotice()) == [AnnouncementKey(a)];
  }

  /** After closing the notice, the same announcement is no longer unread. */
  lemma MaintenanceAcknowledgedScenario(h: Header)
    ensures NoticeClose(h, MaintenanceNotice()).Done? ==>
              CalculateUnreadCount(MaintenanceNotice(), NoticeClose(h, MaintenanceNotice()).header.storage) == Ok(0)
    ensures ReadKeysEntry !in h.storage ==> NoticeClose(h, MaintenanceNotice()).Done?
  {
    if NoticeClose(h, MaintenanceNotice()).Done? {
      CloseLeavesNothingUnread(h, MaintenanceNotice());
    }
  }
}
