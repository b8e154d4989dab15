/**
 * `src/lib/storage.ts`: the stored channel list. The storage file is an object whose single
 * field holds the parsed file (or nothing when the file is missing or unreadable); reading
 * validates it, writing replaces it.
 */
module Storage {
  import opened Types

  /** The parsed storage file before validation: `version` and `channels` may be missing. */
  datatype StoredDocument = StoredDocument(version: Option<int>, lastUpdated: Option<int>, channels: Option<seq<Channel>>)

  const MS_PER_DAY: int := 1000 * 60 * 60 * 24
  const DEFAULT_REMINDER_DAYS: int := 7

  /** `readChannels`: no storage for a missing file, a missing or zero `version`, or a missing
      channel array; otherwise the document as it is. */
  function ReadChannels(file: Option<StoredDocument>): (r: Option<ChannelStorage>)
    ensures r.Some? <==>
      file.Some? && file.value.version.Some? && file.value.version.value != 0 && file.value.channels.Some?
    ensures r.Some? ==>
      r.value.version == file.value.version.value && r.value.lastUpdated == file.value.lastUpdated
      && r.value.channels == file.value.channels.value
  {
    match file
    case None => None
    case Some(doc) =>
      if doc.version.None? || doc.version.value == 0 || doc.channels.None? then None
      else Some(ChannelStorage(doc.version.value, doc.lastUpdated, doc.channels.value))
  }

  /** `writeChannels`: the document the storage is written as. */
  function Encode(storage: ChannelStorage): StoredDocument {
    StoredDocument(Some(storage.version), storage.lastUpdated, Some(storage.channels))
  }

  /** Whatever is written with a non-zero version is read back unchanged. */
  lemma ReadAfterWrite(storage: ChannelStorage)
    requires storage.version != 0
    ensures ReadChannels(Some(Encode(storage))) == Some(storage)
  {
  }

  /** A document that reads as valid is written back as itself. */
  lemma WriteAfterRead(file: Option<StoredDocument>)
    requires ReadChannels(file).Some?
    ensures Some(Encode(ReadChannels(file).value)) == file
  {
  }

  /** `getChannels`: the stored list, or the empty list without valid storage. */
  function GetChannels(file: Option<StoredDocument>): (r: seq<Channel>)
    ensures ReadChannels(file).Some? ==> r == file.value.channels.value
    ensures ReadChannels(file).None? ==> r == []
  {
    match ReadChannels(file)
    case None => []
    case Some(storage) => storage.channels
  }

  /** `getLastUpdateTime`. */
  function GetLastUpdateTime(file: Option<StoredDocument>): (r: Option<int>)
    ensures r.Some? <==> ReadChannels(file).Some? && file.value.lastUpdated.Some?
    ensures r.Some? ==> r.value == file.value.lastUpdated.value
  {
    match ReadChannels(file)
    case None => None
    case Some(storage) => storage.lastUpdated
  }

  /** The record `updateChannels` writes. */
  function NewStorage(channels: seq<Channel>, now: int): (r: ChannelStorage)
    ensures ReadChannels(Some(Encode(r))) == Some(r)
    ensures GetChannels(Some(Encode(r))) == channels
    ensures GetLastUpdateTime(Some(Encode(r))) == Some(now)
  {
    ChannelStorage(1, Some(now), channels)
  }

  /** `shouldShowUpdateReminder`: fractional days since the last update, compared strictly. */
  function ShouldShowUpdateReminder(file: Option<StoredDocument>, now: int, reminderDays: int): bool {
    match GetLastUpdateTime(file)
    case None => true
    case Some(last) => (now - last) as real / MS_PER_DAY as real > reminderDays as real
  }

  /** The reminder shows exactly when there is no update time or more than `reminderDays` whole
      days of milliseconds have passed; exactly `reminderDays` days is not enough. */
  lemma ReminderThreshold(file: Option<StoredDocument>, now: int, reminderDays: int)
    ensures ShouldShowUpdateReminder(file, now, reminderDays) <==>
      GetLastUpdateTime(file).None? || now - GetLastUpdateTime(file).value > reminderDays * MS_PER_DAY
  {
    if GetLastUpdateTime(file).Some? {
      var elapsed := (now - GetLastUpdateTime(file).value) as real;
      var day := MS_PER_DAY as real;
      assert elapsed / day > reminderDays as real <==> elapsed > reminderDays as real * day;
    }
  }

  /** With the default of 7 days: exactly a week after the update no reminder, one millisecond
      later a reminder. */
  lemma DefaultReminderAfterAWeek(file: Option<StoredDocument>)
    requires GetLastUpdateTime(file).Some?
    ensures var last := GetLastUpdateTime(file).value;
      !ShouldShowUpdateReminder(file, last + 7 * MS_PER_DAY, DEFAULT_REMINDER_DAYS)
      && ShouldShowUpdateReminder(file, last + 7 * MS_PER_DAY + 1, DEFAULT_REMINDER_DAYS)
  {
    var last := GetLastUpdateTime(file).value;
    ReminderThreshold(file, last + 7 * MS_PER_DAY, DEFAULT_REMINDER_DAYS);
    ReminderThreshold(file, last + 7 * MS_PER_DAY + 1, DEFAULT_REMINDER_DAYS);
  }

  // ---------------------------------------------------------------------------------------------
  // Aliases

  /** `channels.find(c => c.id === id)`, as an index. */
  function FindChannelIndex(channels: seq<Channel>, id: string): (r: Option<nat>)
    ensures r.Some? ==> r.value < |channels| && channels[r.value].id == id
    ensures r.Some? ==> forall j :: 0 <= j < r.value ==> channels[j].id != id
    ensures r.None? ==> forall j :: 0 <= j < |channels| ==> channels[j].id != id
  {
    if channels == [] then None
    else if channels[0].id == id then Some(0)
    else match FindChannelIndex(channels[1..], id)
      case None => None
      case Some(k) => Some(k + 1)
  }

  /** Sets (`Some`) or deletes (`None`) the alias of the first channel with the id. */
  function SetAlias(channels: seq<Channel>, id: string, alias: Option<string>): seq<Channel> {
    match FindChannelIndex(channels, id)
    case None => channels
    case Some(i) => channels[i := channels[i].(customAlias := alias)]
  }

  /** Only the first channel with the id changes, and only in its alias; without such a channel
      nothing changes. */
  lemma SetAliasEffect(channels: seq<Channel>, id: string, alias: Option<string>)
    ensures var r := SetAlias(channels, id, alias);
      |r| == |channels|
      && (forall j :: 0 <= j < |channels| ==> r[j].id == channels[j].id)
      && (forall j :: 0 <= j < |channels| && channels[j].id != id ==> r[j] == channels[j])
      && (forall j :: 0 <= j < |channels| && channels[j].id == id ==>
            r[j] == channels[j].(customAlias := if FindChannelIndex(channels, id) == Some(j) then alias else channels[j].customAlias))
      && ((forall j :: 0 <= j < |channels| ==> channels[j].id != id) ==> r == channels)
  {
  }

  /** Adding an alias and then removing it leaves the list as removing alone would, and the
      channel has no alias. */
  lemma AddThenRemoveAlias(channels: seq<Channel>, id: string, alias: string)
    ensures SetAlias(SetAlias(channels, id, Some(alias)), id, None) == SetAlias(channels, id, None)
    ensures var r := SetAlias(SetAlias(channels, id, Some(alias)), id, None);
      forall j :: 0 <= j < |r| && FindChannelIndex(channels, id) == Some(j) ==> r[j].customAlias.None?
  {
    var once := SetAlias(channels, id, Some(alias));
    SetAliasEffect(channels, id, Some(alias));
    SameIdsSameIndex(channels, once, id);
  }

  /** The first-match index depends only on the ids. */
  lemma {:induction false} SameIdsSameIndex(a: seq<Channel>, b: seq<Channel>, id: string)
    requires |a| == |b| && forall j :: 0 <= j < |a| ==> a[j].id == b[j].id
    ensures FindChannelIndex(a, id) == FindChannelIndex(b, id)
  {
    if a != [] && a[0].id != id {
      SameIdsSameIndex(a[1..], b[1..], id);
    }
  }

  /** The storage file. */
  class ChannelFile {
    var contents: Option<StoredDocument>

    constructor (initial: Option<StoredDocument>)
      ensures contents == initial
    {
      contents := initial;
    }

    /** `updateChannels`: replaces the file with version 1, `now` and the channels. */
    method UpdateChannels(channels: seq<Channel>, now: int)
      modifies this
      ensures contents == Some(Encode(NewStorage(channels, now)))
      ensures GetChannels(contents) == channels && GetLastUpdateTime(contents) == Some(now)
    {
      contents := Some(Encode(NewStorage(channels, now)));
    }

    /** `addCustomAlias`: sets the alias of the first channel with the id and writes the storage
        back; writes nothing without valid storage or without such a channel. */
    method AddCustomAlias(channelId: string, alias: string)
      modifies this
      ensures ReadChannels(old(contents)).None? ==> contents == old(contents)
      ensures ReadChannels(old(contents)).Some? && FindChannelIndex(GetChannels(old(contents)), channelId).None? ==>
        contents == old(contents)
      ensures ReadChannels(old(contents)).Some? ==>
        contents == Some(old(contents).value.(channels := Some(SetAlias(GetChannels(old(contents)), channelId, Some(alias)))))
    {
      var storage := ReadChannels(contents);
      if storage.None? {
        return;
      }
      var st := storage.value;
      var found := FindChannelIndex(st.channels, channelId);
      if found.Some? {
        var i := found.value;
        var updated := st.channels[i := st.channels[i].(customAlias := Some(alias))];
        WriteAfterRead(contents);
        contents := Some(Encode(st.(channels := updated)));
      }
    }

    /** `removeCustomAlias`: deletes the alias of the first channel with the id, with the same
        conditions on writing as `AddCustomAlias`. */
    method RemoveCustomAlias(channelId: string)
      modifies this
      ensures ReadChannels(old(contents)).None? ==> contents == old(contents)
      ensures ReadChannels(old(contents)).Some? && FindChannelIndex(GetChannels(old(contents)), channelId).None? ==>
        contents == old(contents)
      ensures ReadChannels(old(contents)).Some? ==>
        contents == Some(old(contents).value.(channels := Some(SetAlias(GetChannels(old(contents)), channelId, None))))
    {
      var storage := ReadChannels(contents);
      if storage.None? {
        return;
      }
      var st := storage.value;
      var found := FindChannelIndex(st.channels, channelId);
      if found.Some? {
        var i := found.value;
        var updated := st.channels[i := st.channels[i].(customAlias := None)];
        WriteAfterRead(contents);
        contents := Some(Encode(st.(channels := updated)));
      }
    }
  }
}
