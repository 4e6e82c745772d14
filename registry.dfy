/**
 * The request-channel registry of the `/setup` command: one intake text channel
 * per guild, kept as a map from the guild id written in decimal to the channel
 * id written in decimal, loaded from `request_channels.json` when the cog starts
 * and written back after every change. The file system, JSON decoding and the
 * platform's channel lookup and creation are inputs standing for their results.
 */
module Registry {
  import opened Wrappers
  import Decimal

  /** What reading `request_channels.json` finds. */
  datatype StoreFile = Absent | Malformed | Parsed(entries: map<string, string>)

  /** The registry a load starts from: the decoded map, or an empty one when there is none. */
  function LoadedFrom(file: StoreFile): (m: map<string, string>)
    ensures file.Parsed? ==> m == file.entries
    ensures !file.Parsed? ==> m == map[]
  {
    match file
    case Parsed(entries) => entries
    case _ => map[]
  }

  /** The registry key of a guild: `str(guild.id)`. */
  function GuildKey(guildId: nat): (key: string)
    ensures Decimal.AllDigits(key) && Decimal.ParseInt(key) == Some(guildId)
  {
    Decimal.ParseIntOfNatToString(guildId);
    Decimal.NatToString(guildId)
  }

  /** What the existing-entry check of `/setup` finds for a guild. */
  datatype Existing =
    | NoEntry             // the guild has no entry
    | Live(channelId: int) // the entry names a channel the guild still has
    | Stale               // the entry names a channel that no longer exists
    | Unparsable          // `int()` refuses the stored text

  /**
   * Classify the entry for `key`; `live` is the set of channel ids
   * `guild.get_channel` still resolves.
   */
  function Inspect(channels: map<string, string>, key: string, live: set<int>): (e: Existing)
    ensures e == NoEntry <==> key !in channels
    ensures e.Live? ==> key in channels && Decimal.ParseInt(channels[key]) == Some(e.channelId) && e.channelId in live
    ensures e == Stale ==> key in channels && Decimal.ParseInt(channels[key]).Some? && Decimal.ParseInt(channels[key]).value !in live
    ensures e == Unparsable <==> key in channels && Decimal.ParseInt(channels[key]).None?
  {
    if key !in channels then NoEntry
    else match Decimal.ParseInt(channels[key])
      case None => Unparsable
      case Some(id) => if id in live then Live(id) else Stale
  }

  /**
   * An entry written for a newly created channel is found live again for as
   * long as that channel exists: a second `/setup` names it.
   */
  lemma RegisteredChannelFoundLive(channels: map<string, string>, guildId: nat, channelId: nat, live: set<int>)
    requires channelId in live
    ensures Inspect(channels[GuildKey(guildId) := Decimal.NatToString(channelId)], GuildKey(guildId), live) == Live(channelId)
  {
    Decimal.ParseIntOfNatToString(channelId);
  }

  /** How `guild.create_text_channel` ended. */
  datatype Creation = Created(channelId: nat) | HttpError | OtherError

  /** The reply `/setup` gives. */
  datatype SetupOutcome =
    | PermissionDenied           // the caller is not an administrator
    | AlreadySetUp(channelId: int) // a live intake channel exists
    | MissingManageChannels      // the bot may not manage channels
    | SetupComplete(newChannelId: nat)
    | CreationFailed             // the platform refused the creation (HTTP error)
    | UnexpectedError            // any other error while creating
    | Crashed                    // `int()` raised on the stored id: no reply at all

  class RequestChannels {
    /** The in-memory registry (`request_channels`). */
    var channels: map<string, string>
    /** What `request_channels.json` holds. */
    var stored: StoreFile

    /** The module is imported with an empty registry, before anything is loaded. */
    constructor (file: StoreFile)
      ensures channels == map[] && stored == file
    {
      channels := map[];
      stored := file;
    }

    /** `load_request_channels`: replaces the registry by what the file holds. */
    method Load()
      modifies this`channels
      ensures channels == LoadedFrom(stored)
    {
      match stored {
        case Absent =>
          channels := map[];
        case Malformed =>
          channels := map[];
        case Parsed(entries) =>
          channels := entries;
      }
    }

    /**
     * `save_request_channels`: writes the whole registry. A failed write is
     * only logged; the registry itself is never touched.
     */
    method Save(writable: bool)
      modifies this`stored
      ensures stored == if writable then Parsed(channels) else old(stored)
    {
      if writable {
        stored := Parsed(channels);
      }
    }

    /**
     * The `/setup` command for guild `guildId`. `live` is the set of channel ids
     * the guild still has and `creation` how creating the new channel ends;
     * `removalWritable` and `creationWritable` say whether the save after
     * removing a stale entry and the save after registering the new channel
     * reach the file.
     */
    method Setup(isAdmin: bool, guildId: nat, live: set<int>, canManageChannels: bool,
                 creation: Creation, removalWritable: bool, creationWritable: bool)
      returns (outcome: SetupOutcome)
      modifies this
      ensures var key := GuildKey(guildId);
        var found := Inspect(old(channels), key, live);
        var healed := if found == Stale then old(channels) - {key} else old(channels);
        var healedStored := if found == Stale && removalWritable then Parsed(healed) else old(stored);
        && (!isAdmin ==>
              outcome == PermissionDenied && channels == old(channels) && stored == old(stored))
        && (isAdmin && found.Live? ==>
              outcome == AlreadySetUp(found.channelId) && channels == old(channels) && stored == old(stored))
        && (isAdmin && found == Unparsable ==>
              outcome == Crashed && channels == old(channels) && stored == old(stored))
        && (isAdmin && (found == NoEntry || found == Stale) && !canManageChannels ==>
              outcome == MissingManageChannels && channels == healed && stored == healedStored)
        && (isAdmin && (found == NoEntry || found == Stale) && canManageChannels ==>
              match creation
              case Created(id) =>
                && outcome == SetupComplete(id)
                && channels == old(channels)[key := Decimal.NatToString(id)]
                && stored == if creationWritable then Parsed(channels) else healedStored
              case HttpError =>
                outcome == CreationFailed && channels == healed && stored == healedStored
              case OtherError =>
                outcome == UnexpectedError && channels == healed && stored == healedStored)
    {
      if !isAdmin {
        return PermissionDenied;
      }
      var key := GuildKey(guildId);
      if key in channels {
        var existing := Decimal.ParseInt(channels[key]);
        if existing.None? {
          return Crashed;
        }
        if existing.value in live {
          return AlreadySetUp(existing.value);
        }
        channels := channels - {key};
        Save(removalWritable);
      }
      if !canManageChannels {
        return MissingManageChannels;
      }
      match creation {
        case Created(id) =>
          channels := channels[key := Decimal.NatToString(id)];
          Save(creationWritable);
          outcome := SetupComplete(id);
        case HttpError =>
          outcome := CreationFailed;
        case OtherError =>
          outcome := UnexpectedError;
      }
    }
  }

  /**
   * A registry that was written successfully loads back unchanged: saving and
   * then loading leaves the in-memory registry as it was and the file holding it.
   */
  method SaveThenLoad(registry: RequestChannels)
    modifies registry
    ensures registry.channels == old(registry.channels)
    ensures registry.stored == Parsed(old(registry.channels))
  {
    registry.Save(true);
    registry.Load();
  }

  /**
   * Running `/setup` twice in a guild: the second run reports the channel the
   * first one created, and changes nothing.
   */
  method SetupTwice(registry: RequestChannels, guildId: nat, live: set<int>, channelId: nat, writable: bool)
    returns (first: SetupOutcome, second: SetupOutcome)
    requires channelId in live
    requires Inspect(registry.channels, GuildKey(guildId), live) == NoEntry
    modifies registry
    ensures first == SetupComplete(channelId) && second == AlreadySetUp(channelId)
    ensures registry.channels == old(registry.channels)[GuildKey(guildId) := Decimal.NatToString(channelId)]
  {
    first := registry.Setup(true, guildId, live, true, Created(channelId), writable, writable);
    RegisteredChannelFoundLive(old(registry.channels), guildId, channelId, live);
    ghost var after := registry.channels;
    second := registry.Setup(true, guildId, live, true, Created(channelId), writable, writable);
    assert registry.channels == after;
  }
}
