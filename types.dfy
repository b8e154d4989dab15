/** The records of the extension: channel kinds, channels and the stored channel list. */
module Types {

  datatype Option<+T> = None | Some(value: T)

  datatype Result<+T, +E> = Ok(value: T) | Err(error: E)

  /** The four Slack conversation kinds, serialised as "channel", "group", "im" and "mpim". */
  datatype ChannelType = PublicChannel | Group | Im | Mpim

  /**
   * One Slack conversation. The optional fields of the record are `Option`s; timestamps are
   * integer milliseconds since the epoch instead of ISO-8601 strings.
   */
  datatype Channel = Channel(
    id: string,
    name: string,
    displayName: Option<string>,
    teamId: string,
    channelType: ChannelType,
    topic: Option<string>,
    memberCount: Option<int>,
    isArchived: Option<bool>,
    lastActivity: Option<int>,
    customAlias: Option<string>)

  /** The stored channel list; `lastUpdated` may be absent in a file that otherwise validates. */
  datatype ChannelStorage = ChannelStorage(version: int, lastUpdated: Option<int>, channels: seq<Channel>)

  /** JavaScript truthiness of an optional string: absent and empty behave alike. */
  predicate Truthy(s: Option<string>) {
    s.Some? && s.value != []
  }

  /** JavaScript `a || b` for an optional string and a fallback. */
  function OrElse(a: Option<string>, b: string): string {
    if Truthy(a) then a.value else b
  }
}
