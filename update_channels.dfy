/**
 * `src/update-channels.tsx`: checking pasted channel data, importing it into the storage file,
 * and describing how long ago the last import was.
 */
module UpdateChannels {
  import opened Types
  import opened Strings
  import Storage

  /** One pasted channel before validation: the required fields may be missing or empty. */
  datatype PastedChannel = PastedChannel(
    id: Option<string>,
    name: Option<string>,
    displayName: Option<string>,
    teamId: Option<string>,
    channelType: Option<ChannelType>,
    topic: Option<string>,
    memberCount: Option<int>,
    isArchived: Option<bool>,
    lastActivity: Option<int>,
    customAlias: Option<string>)

  /** The pasted document: `version` and the channel array may be missing. */
  datatype PastedData = PastedData(version: Option<int>, channels: Option<seq<PastedChannel>>)

  /** What `JSON.parse` made of the pasted text. */
  datatype ParseOutcome = Parsed(data: PastedData) | SyntaxError(message: string)

  datatype ToastStyle = Success | Failure

  datatype Toast = Toast(style: ToastStyle, title: string, message: string)

  datatype SubmitError = NoData | ParseFailed(message: string) | InvalidFormat | MissingFields(count: nat)

  /** A truthy version and a channel array. */
  predicate HasStructure(data: PastedData) {
    data.version.Some? && data.version.value != 0 && data.channels.Some?
  }

  /** `isValidChannelJson`, the test that offers the clipboard contents for import. */
  function IsValidChannelJson(parsed: ParseOutcome): bool {
    parsed.Parsed? && HasStructure(parsed.data)
  }

  /** One of `id`, `name`, `teamId` and `type` is missing or empty. */
  predicate MissingRequired(c: PastedChannel) {
    !Truthy(c.id) || !Truthy(c.name) || !Truthy(c.teamId) || c.channelType.None?
  }

  /** `storage.channels.filter(...)`: the channels with a missing required field. */
  function InvalidChannels(cs: seq<PastedChannel>): (r: seq<PastedChannel>)
    ensures |r| <= |cs|
    ensures forall c :: multiset(r)[c] == if MissingRequired(c) then multiset(cs)[c] else 0
  {
    if cs == [] then []
    else
      assert cs == [cs[0]] + cs[1..];
      (if MissingRequired(cs[0]) then [cs[0]] else []) + InvalidChannels(cs[1..])
  }

  /** No channel is reported invalid exactly when every channel has all required fields. */
  lemma NoInvalidIffComplete(cs: seq<PastedChannel>)
    ensures InvalidChannels(cs) == [] <==> forall i :: 0 <= i < |cs| ==> !MissingRequired(cs[i])
  {
    var r := InvalidChannels(cs);
    if r == [] {
      forall i | 0 <= i < |cs| ensures !MissingRequired(cs[i]) {
        assert multiset(cs)[cs[i]] > 0;
        assert multiset(r)[cs[i]] == 0;
      }
    } else {
      assert multiset(r)[r[0]] > 0;
      assert r[0] in multiset(cs);
    }
  }

  function ToChannel(c: PastedChannel): Channel
    requires !MissingRequired(c)
  {
    Channel(c.id.value, c.name.value, c.displayName, c.teamId.value, c.channelType.value, c.topic,
      c.memberCount, c.isArchived, c.lastActivity, c.customAlias)
  }

  /** A stored channel as it reads when exported and pasted again. */
  function FromChannel(c: Channel): (p: PastedChannel)
    ensures !MissingRequired(p) <==> c.id != [] && c.name != [] && c.teamId != []
  {
    PastedChannel(Some(c.id), Some(c.name), c.displayName, Some(c.teamId), Some(c.channelType), c.topic,
      c.memberCount, c.isArchived, c.lastActivity, c.customAlias)
  }

  /** The pasted channels as stored channels, in the pasted order: every field is kept, so each
      stored channel exports back to exactly the pasted one. */
  function ToChannels(cs: seq<PastedChannel>): (r: seq<Channel>)
    requires forall i :: 0 <= i < |cs| ==> !MissingRequired(cs[i])
    ensures |r| == |cs|
    ensures forall i :: 0 <= i < |r| ==> FromChannel(r[i]) == cs[i]
  {
    seq(|cs|, i requires 0 <= i < |cs| && !MissingRequired(cs[i]) => ToChannel(cs[i]))
  }

  /** Channels exported and pasted back are imported as they were, when each has an id, a name
      and a team id. */
  lemma ExportThenImport(channels: seq<Channel>)
    requires forall i :: 0 <= i < |channels| ==>
      channels[i].id != [] && channels[i].name != [] && channels[i].teamId != []
    ensures var pasted := seq(|channels|, i requires 0 <= i < |channels| => FromChannel(channels[i]));
      (forall i :: 0 <= i < |pasted| ==> !MissingRequired(pasted[i])) && ToChannels(pasted) == channels
  {
    var pasted := seq(|channels|, i requires 0 <= i < |channels| => FromChannel(channels[i]));
    var r := ToChannels(pasted);
    forall i | 0 <= i < |channels| ensures r[i] == channels[i] {
      assert FromChannel(r[i]) == FromChannel(channels[i]);
    }
  }

  /** The checks of `handleSubmit`, in order: blank text, unparsable text, missing structure,
      channels with missing fields; otherwise the channels to store. */
  function ValidateSubmission(text: string, parsed: ParseOutcome): (r: Result<seq<Channel>, SubmitError>)
    ensures r == Err(NoData) <==> AllSpace(text)
    ensures r.Ok? <==>
      (!AllSpace(text) && parsed.Parsed? && HasStructure(parsed.data)
       && forall i :: 0 <= i < |parsed.data.channels.value| ==> !MissingRequired(parsed.data.channels.value[i]))
    ensures r.Ok? ==>
      (parsed.Parsed? && HasStructure(parsed.data) && |r.value| == |parsed.data.channels.value|
       && forall i :: 0 <= i < |r.value| ==> FromChannel(r.value[i]) == parsed.data.channels.value[i])
    ensures !AllSpace(text) && parsed.SyntaxError? ==> r == Err(ParseFailed(parsed.message))
    ensures !AllSpace(text) && parsed.Parsed? && !HasStructure(parsed.data) ==> r == Err(InvalidFormat)
    ensures r.Err? && r.error.MissingFields? <==>
      (!AllSpace(text) && parsed.Parsed? && HasStructure(parsed.data) && InvalidChannels(parsed.data.channels.value) != [])
    ensures r.Err? && r.error.MissingFields? ==>
      (parsed.Parsed? && HasStructure(parsed.data)
       && r.error.count == |InvalidChannels(parsed.data.channels.value)| && r.error.count > 0)
  {
    TrimEmptyIff(text);
    if Trim(text) == [] then Err(NoData)
    else match parsed
      case SyntaxError(m) => Err(ParseFailed(m))
      case Parsed(data) =>
        if !HasStructure(data) then Err(InvalidFormat)
        else
          NoInvalidIffComplete(data.channels.value);
          var invalid := InvalidChannels(data.channels.value);
          if |invalid| > 0 then Err(MissingFields(|invalid|))
          else Ok(ToChannels(data.channels.value))
  }

  /** The notification `handleSubmit` shows. */
  function SubmitToast(r: Result<seq<Channel>, SubmitError>): Toast {
    match r
    case Ok(channels) =>
      Toast(Success, "Channels Updated", "Successfully imported " + NatToString(|channels|) + " channels")
    case Err(NoData) => Toast(Failure, "No Data", "Please paste the channel data")
    case Err(ParseFailed(m)) => Toast(Failure, "Update Failed", m)
    case Err(InvalidFormat) => Toast(Failure, "Update Failed", "Invalid data format")
    case Err(MissingFields(n)) =>
      Toast(Failure, "Update Failed", NatToString(n) + " channels have missing required fields")
  }

  /** `s` starts with the decimal numeral of `n`, followed by `rest`. */
  ghost predicate StartsWithCount(s: string, n: nat, rest: string) {
    exists k :: 0 < k <= |s| && (forall i :: 0 <= i < k ==> IsDigit(s[i])) && DigitsValue(s[..k]) == n && s[k..] == rest
  }

  lemma NumeralThen(n: nat, rest: string)
    ensures StartsWithCount(NatToString(n) + rest, n, rest)
  {
    var s := NatToString(n) + rest;
    var k := |NatToString(n)|;
    assert s[..k] == NatToString(n);
    NatToStringRoundTrip(n);
  }

  const SuccessHead: string := "Successfully imported "

  /** The success message carries the number of imported channels. */
  lemma SuccessToastReportsCount(text: string, parsed: ParseOutcome)
    requires ValidateSubmission(text, parsed).Ok?
    ensures var t := SubmitToast(ValidateSubmission(text, parsed));
      t.style == Success && SuccessHead <= t.message
      && StartsWithCount(t.message[|SuccessHead|..], |parsed.data.channels.value|, " channels")
  {
    var channels := ValidateSubmission(text, parsed).value;
    var t := SubmitToast(ValidateSubmission(text, parsed));
    assert t.message == SuccessHead + (NatToString(|channels|) + " channels");
    assert t.message[|SuccessHead|..] == NatToString(|channels|) + " channels";
    NumeralThen(|channels|, " channels");
  }

  /** The missing-fields message carries the number of channels with a missing field. */
  lemma MissingFieldsToastReportsCount(text: string, parsed: ParseOutcome)
    requires ValidateSubmission(text, parsed).Err? && ValidateSubmission(text, parsed).error.MissingFields?
    ensures var t := SubmitToast(ValidateSubmission(text, parsed));
      t.style == Failure
      && StartsWithCount(t.message, |InvalidChannels(parsed.data.channels.value)|, " channels have missing required fields")
  {
    NumeralThen(ValidateSubmission(text, parsed).error.count, " channels have missing required fields");
  }

  /** On non-blank text, the clipboard test accepts exactly the documents that get past the
      format checks of the submission (they may still have channels with missing fields). */
  lemma ClipboardTestAgreesWithSubmit(text: string, parsed: ParseOutcome)
    requires !AllSpace(text)
    ensures var r := ValidateSubmission(text, parsed);
      IsValidChannelJson(parsed) <==> r.Ok? || (r.Err? && r.error.MissingFields?)
  {
  }

  /** `handleSubmit`: on success the storage file holds exactly the pasted channels with version 1
      and `now`; on any failure it is left as it was. */
  method HandleSubmit(file: Storage.ChannelFile, text: string, parsed: ParseOutcome, now: int) returns (toast: Toast)
    modifies file
    ensures toast == SubmitToast(ValidateSubmission(text, parsed))
    ensures ValidateSubmission(text, parsed).Ok? ==>
      file.contents == Some(Storage.Encode(Storage.NewStorage(ValidateSubmission(text, parsed).value, now)))
    ensures ValidateSubmission(text, parsed).Err? ==> file.contents == old(file.contents)
  {
    if Trim(text) == [] {
      toast := Toast(Failure, "No Data", "Please paste the channel data");
      return;
    }
    match parsed {
      case SyntaxError(m) =>
        toast := Toast(Failure, "Update Failed", m);
      case Parsed(data) =>
        if data.version.None? || data.version.value == 0 || data.channels.None? {
          toast := Toast(Failure, "Update Failed", "Invalid data format");
          return;
        }
        var invalid := InvalidChannels(data.channels.value);
        if |invalid| > 0 {
          toast := Toast(Failure, "Update Failed", NatToString(|invalid|) + " channels have missing required fields");
          return;
        }
        var channels := ToChannels(data.channels.value);
        file.UpdateChannels(channels, now);
        toast := Toast(Success, "Channels Updated", "Successfully imported " + NatToString(|channels|) + " channels");
    }
  }

  // ---------------------------------------------------------------------------------------------
  // formatLastUpdate

  const MS_PER_HOUR: int := 1000 * 60 * 60

  /** JavaScript `diff % MS_PER_DAY`: the remainder takes the sign of the dividend, is smaller than
      a day in magnitude, and differs from the dividend by whole days. */
  function DayRemainder(diff: int): (r: int)
    ensures diff >= 0 ==> 0 <= r < Storage.MS_PER_DAY
    ensures diff < 0 ==> -Storage.MS_PER_DAY < r <= 0
    ensures (diff - r) % Storage.MS_PER_DAY == 0
  {
    if diff >= 0 then diff % Storage.MS_PER_DAY else -((-diff) % Storage.MS_PER_DAY)
  }

  /** "<n> <unit>[s] ago", plural from 2 on. */
  function Ago(n: nat, unit: string): string {
    NatToString(n) + AgoSuffix(n, unit)
  }

  function AgoSuffix(n: nat, unit: string): string {
    " " + unit + (if n > 1 then "s" else "") + " ago"
  }

  /** The unit is plural exactly when the count is above one. */
  lemma PluralIffMoreThanOne(n: nat, unit: string)
    ensures AgoSuffix(n, unit) == " " + unit + "s ago" <==> n > 1
    ensures AgoSuffix(n, unit) == " " + unit + " ago" <==> n <= 1
  {
    if n > 1 {
      assert AgoSuffix(n, unit) == " " + unit + "s ago";
    } else {
      assert AgoSuffix(n, unit) == " " + unit + " ago";
    }
  }

  function FormatLastUpdate(lastUpdate: Option<int>, now: int): string {
    match lastUpdate
    case None => "Never"
    case Some(last) =>
      var diff := now - last;
      var days := diff / Storage.MS_PER_DAY;
      var hours := DayRemainder(diff) / MS_PER_HOUR;
      if days > 0 then Ago(days, "day")
      else if hours > 0 then Ago(hours, "hour")
      else "Less than an hour ago"
  }

  lemma FloorDivBounds(x: int, d: int)
    requires d > 0
    ensures (x / d) * d <= x < (x / d + 1) * d
  {
    assert x == (x / d) * d + x % d;
  }

  /** For a past time, the hours figure is the whole hours left after the whole days: 0 to 23. */
  lemma HoursInRange(diff: int)
    requires diff >= 0
    ensures var hours := DayRemainder(diff) / MS_PER_HOUR;
      0 <= hours <= 23 && hours == (diff - (diff / Storage.MS_PER_DAY) * Storage.MS_PER_DAY) / MS_PER_HOUR
  {
    FloorDivBounds(diff, Storage.MS_PER_DAY);
    assert DayRemainder(diff) == diff - (diff / Storage.MS_PER_DAY) * Storage.MS_PER_DAY;
  }

  /** A day or more ago: the number of whole days elapsed. */
  lemma FormatLastUpdateDays(last: int, now: int)
    requires now - last >= Storage.MS_PER_DAY
    ensures var days := (now - last) / Storage.MS_PER_DAY;
      days >= 1 && days * Storage.MS_PER_DAY <= now - last < (days + 1) * Storage.MS_PER_DAY
      && StartsWithCount(FormatLastUpdate(Some(last), now), days, AgoSuffix(days, "day"))
  {
    var days := (now - last) / Storage.MS_PER_DAY;
    FloorDivBounds(now - last, Storage.MS_PER_DAY);
    assert FormatLastUpdate(Some(last), now) == Ago(days, "day");
    NumeralThen(days, AgoSuffix(days, "day"));
  }

  /** Between an hour and a day the text is the one for the whole hours. */
  lemma HoursBranch(diff: int, last: int, now: int)
    requires diff == now - last && MS_PER_HOUR <= diff < Storage.MS_PER_DAY
    ensures FormatLastUpdate(Some(last), now) == Ago(diff / MS_PER_HOUR, "hour")
  {
    assert diff / Storage.MS_PER_DAY == 0;
    assert DayRemainder(diff) == diff;
  }

  /** An hour up to a day ago: the number of whole hours elapsed, 1 to 23. */
  lemma FormatLastUpdateHours(last: int, now: int)
    requires MS_PER_HOUR <= now - last < Storage.MS_PER_DAY
    ensures var hours := (now - last) / MS_PER_HOUR;
      1 <= hours <= 23 && hours * MS_PER_HOUR <= now - last < (hours + 1) * MS_PER_HOUR
      && StartsWithCount(FormatLastUpdate(Some(last), now), hours, AgoSuffix(hours, "hour"))
  {
    var diff := now - last;
    var hours := diff / MS_PER_HOUR;
    FloorDivBounds(diff, MS_PER_HOUR);
    HoursBranch(diff, last, now);
    NumeralThen(hours, AgoSuffix(hours, "hour"));
  }

  /** Less than an hour ago, or a time in the future: no number at all. */
  lemma FormatLastUpdateRecent(last: int, now: int)
    requires now - last < MS_PER_HOUR
    ensures FormatLastUpdate(Some(last), now) == "Less than an hour ago"
  {
    var diff := now - last;
    if diff >= 0 {
      assert DayRemainder(diff) == diff;
    }
  }
}
