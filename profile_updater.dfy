/**
 * The owner-only `/updateavatar` and `/updatebanner` commands. Both run the same
 * chain of early returns (owner, 60-second cooldown, file type, 8 MiB size limit)
 * and keep one cooldown timestamp each, which moves forward only when the
 * update went through. Time is in whole seconds; the platform calls (reading the
 * attachment, editing the bot user, the HTTP PATCH) are inputs standing for
 * their outcomes.
 */
module ProfileUpdater {
  import opened Wrappers
  import Base64

  const CooldownSeconds: int := 60
  const MaxImageBytes: int := 8 * 1024 * 1024

  /** The suffixes `str.endswith` is given, in the order the command lists them. */
  const ImageExtensions: seq<string> := [".png", ".jpg", ".jpeg", ".gif", ".webp"]

  /** The same file types, named without the dot. */
  const ImageTypes: set<string> := {"png", "jpg", "jpeg", "gif", "webp"}

  /** The banner is always announced as a GIF, whatever the file. */
  const BannerPrefix: string := "data:image/gif;base64,"

  function LowerChar(c: char): char {
    if 'A' <= c <= 'Z' then (c as int - 'A' as int + 'a' as int) as char else c
  }

  /** `str.lower()` on ASCII letters; every other character is kept. */
  function Lower(s: string): (r: string)
    ensures |r| == |s|
    ensures forall i :: 0 <= i < |r| ==> !('A' <= r[i] <= 'Z')
    ensures forall i :: 0 <= i < |s| && !('A' <= s[i] <= 'Z') ==> r[i] == s[i]
    ensures forall i :: 0 <= i < |s| && 'A' <= s[i] <= 'Z' ==> r[i] as int == s[i] as int + 32
  {
    seq(|s|, i requires 0 <= i < |s| => LowerChar(s[i]))
  }

  /** Lower-casing twice is lower-casing once. */
  lemma LowerIdempotent(s: string)
    ensures Lower(Lower(s)) == Lower(s)
  {
  }

  predicate EndsWith(s: string, suffix: string) {
    |suffix| <= |s| && s[|s| - |suffix|..] == suffix
  }

  /** `s.endswith(suffixes)` with a tuple of suffixes, tried in order. */
  function EndsWithAny(s: string, suffixes: seq<string>): (b: bool)
    ensures b <==> exists k :: 0 <= k < |suffixes| && EndsWith(s, suffixes[k])
  {
    if |suffixes| == 0 then false
    else EndsWith(s, suffixes[0]) || EndsWithAny(s, suffixes[1..])
  }

  /** The file-type check of both commands. */
  predicate HasImageExtension(filename: string) {
    EndsWithAny(Lower(filename), ImageExtensions)
  }

  /** The position of the last '.' in `s`, if there is one. */
  function LastDot(s: string): (r: Option<nat>)
    ensures r.Some? ==> r.value < |s| && s[r.value] == '.' && forall j :: r.value < j < |s| ==> s[j] != '.'
    ensures r.None? ==> forall j :: 0 <= j < |s| ==> s[j] != '.'
  {
    if |s| == 0 then None
    else if s[|s| - 1] == '.' then Some(|s| - 1)
    else LastDot(s[..|s| - 1])
  }

  /** The file type a name declares: the lower-cased text after its last dot. */
  function Extension(filename: string): (r: Option<string>) {
    var l := Lower(filename);
    match LastDot(l)
    case None => None
    case Some(i) => Some(l[i + 1..])
  }

  /** A name ending in a dot and a dot-free word has that word after its last dot. */
  lemma DotSuffix(l: string, w: string)
    requires forall j :: 0 <= j < |w| ==> w[j] != '.'
    requires EndsWith(l, "." + w)
    ensures LastDot(l) == Some(|l| - |w| - 1) && l[|l| - |w|..] == w
  {
    var p := |l| - |w| - 1;
    assert l[p..] == "." + w;
    assert l[p] == '.';
    forall j | p < j < |l| ensures l[j] != '.' {
      assert l[j] == l[p..][j - p] == w[j - p - 1];
    }
    var q := LastDot(l).value;
    assert q == p;
  }

  /** Conversely, a name ends in a dot followed by the text after its last dot. */
  lemma EndsWithLastDotSuffix(l: string, i: nat)
    requires LastDot(l) == Some(i)
    ensures EndsWith(l, "." + l[i + 1..])
  {
    assert l[i..] == [l[i]] + l[i + 1..];
  }

  /** The dotted suffix for each file type, and the type for each suffix. */
  function DotFree(k: nat): (w: string)
    requires k < |ImageExtensions|
    ensures ImageExtensions[k] == "." + w && w in ImageTypes
    ensures forall j :: 0 <= j < |w| ==> w[j] != '.'
  {
    ImageExtensions[k][1..]
  }

  function SuffixIndex(w: string): (k: nat)
    requires w in ImageTypes
    ensures k < |ImageExtensions| && ImageExtensions[k] == "." + w
  {
    if w == "png" then 0 else if w == "jpg" then 1 else if w == "jpeg" then 2 else if w == "gif" then 3 else 4
  }

  lemma ImageExtensionHasImageType(filename: string)
    requires HasImageExtension(filename)
    ensures Extension(filename).Some? && Extension(filename).value in ImageTypes
  {
    var l := Lower(filename);
    var k :| 0 <= k < |ImageExtensions| && EndsWith(l, ImageExtensions[k]);
    var w := DotFree(k);
    DotSuffix(l, w);
    assert Extension(filename) == Some(w);
  }

  lemma ImageTypeHasImageExtension(filename: string)
    requires Extension(filename).Some? && Extension(filename).value in ImageTypes
    ensures HasImageExtension(filename)
  {
    var l := Lower(filename);
    var i := LastDot(l).value;
    var w := l[i + 1..];
    assert w == Extension(filename).value;
    EndsWithLastDotSuffix(l, i);
    var k := SuffixIndex(w);
    assert EndsWith(l, ImageExtensions[k]);
  }

  /**
   * The suffix check is the same as asking whether the text after the last dot,
   * lower-cased, is one of the five image types.
   */
  lemma HasImageExtensionIffImageType(filename: string)
    ensures HasImageExtension(filename) <==> (Extension(filename).Some? && Extension(filename).value in ImageTypes)
  {
    if HasImageExtension(filename) {
      ImageExtensionHasImageType(filename);
    }
    if Extension(filename).Some? && Extension(filename).value in ImageTypes {
      ImageTypeHasImageExtension(filename);
    }
  }

  /** The file-type check ignores case: a name and its lower-cased form are accepted alike. */
  lemma HasImageExtensionIgnoresCase(filename: string)
    ensures HasImageExtension(Lower(filename)) == HasImageExtension(filename)
  {
    LowerIdempotent(filename);
  }

  predicate CooldownOver(now: int, last: int) {
    now - last >= CooldownSeconds
  }

  datatype Attachment = Attachment(filename: string, size: nat, data: seq<Base64.byte>)

  datatype Refusal =
    | NotOwner
    | CoolingDown(waitSeconds: int)
    | UnsupportedFileType
    | FileTooLarge

  datatype Check = Refuse(reason: Refusal) | Pass

  /**
   * The checks both commands run before touching the platform, in their order;
   * the first that fails decides the reply.
   */
  function CheckUpload(isOwner: bool, now: int, last: int, image: Attachment): (r: Check)
    ensures r == Pass <==>
      isOwner && CooldownOver(now, last) && HasImageExtension(image.filename) && image.size <= MaxImageBytes
    ensures r == Refuse(NotOwner) <==> !isOwner
    ensures r.Refuse? && r.reason.CoolingDown? ==>
      && isOwner && !CooldownOver(now, last)
      && 0 < r.reason.waitSeconds
      && CooldownOver(now + r.reason.waitSeconds, last) && !CooldownOver(now + r.reason.waitSeconds - 1, last)
    ensures r == Refuse(UnsupportedFileType) ==>
      isOwner && CooldownOver(now, last) && !HasImageExtension(image.filename)
    ensures r == Refuse(FileTooLarge) ==>
      isOwner && CooldownOver(now, last) && HasImageExtension(image.filename) && image.size > MaxImageBytes
  {
    if !isOwner then Refuse(NotOwner)
    else if now - last < CooldownSeconds then Refuse(CoolingDown(CooldownSeconds - (now - last)))
    else if !HasImageExtension(image.filename) then Refuse(UnsupportedFileType)
    else if image.size > MaxImageBytes then Refuse(FileTooLarge)
    else Pass
  }

  /** A second attempt in the same second is told to wait the whole window. */
  lemma ImmediateRetryWaitsFullWindow(now: int, image: Attachment)
    ensures CheckUpload(true, now, now, image) == Refuse(CoolingDown(CooldownSeconds))
  {
  }

  /** An image of exactly 8 MiB is accepted; one byte more is not. */
  lemma SizeLimitIsInclusive(now: int, last: int, image: Attachment)
    requires CooldownOver(now, last) && HasImageExtension(image.filename)
    ensures image.size == MaxImageBytes ==> CheckUpload(true, now, last, image) == Pass
    ensures image.size == MaxImageBytes + 1 ==> CheckUpload(true, now, last, image) == Refuse(FileTooLarge)
  {
  }

  /** The JSON `banner` field of the PATCH request: a data URI around the base 64 text. */
  function BannerPayload(image: seq<Base64.byte>): (p: string)
    ensures |p| == |BannerPrefix| + 4 * ((|image| + 2) / 3)
    ensures p[..|BannerPrefix|] == BannerPrefix
  {
    BannerPrefix + Base64.Encode(image)
  }

  /** The payload carries the image bytes without loss. */
  lemma BannerPayloadDecodes(image: seq<Base64.byte>)
    ensures Base64.Decode(BannerPayload(image)[|BannerPrefix|..]) == Some(image)
  {
    assert BannerPayload(image)[|BannerPrefix|..] == Base64.Encode(image);
    Base64.DecodeEncode(image);
  }

  /** Why an update that passed the checks did not go through. */
  datatype Failure =
    | EditRejected          // `bot.user.edit` raised an HTTP error
    | ApiStatus(code: int)  // the PATCH answered with a status other than 200
    | ConnectionError       // the HTTP client raised an error
    | MissingToken          // no bot token in the environment
    | ReadFailed            // reading the attachment raised

  datatype Outcome = Refused(reason: Refusal) | Updated | Failed(failure: Failure)

  /** The result of the banner PATCH request, when it is sent. */
  datatype PatchReply = Status(code: int) | ClientFailure

  class AvatarBannerUpdater {
    const ownerIds: set<nat>
    var lastAvatarUpdate: int
    var lastBannerUpdate: int

    constructor (ownerIds: set<nat>)
      ensures this.ownerIds == ownerIds
      ensures lastAvatarUpdate == 0 && lastBannerUpdate == 0
    {
      this.ownerIds := ownerIds;
      lastAvatarUpdate := 0;
      lastBannerUpdate := 0;
    }

    predicate IsOwner(user: nat) {
      user in ownerIds
    }

    /**
     * `/updateavatar`. `editSucceeds` is whether reading the attachment and
     * editing the bot user both went through without an HTTP error. The
     * timestamp moves to `now` only when they did.
     */
    method UpdateAvatar(user: nat, now: int, image: Attachment, editSucceeds: bool) returns (outcome: Outcome)
      modifies this`lastAvatarUpdate
      ensures var check := CheckUpload(IsOwner(user), now, old(lastAvatarUpdate), image);
        && (check.Refuse? ==> outcome == Refused(check.reason))
        && (check == Pass ==> outcome == if editSucceeds then Updated else Failed(EditRejected))
      ensures lastAvatarUpdate == if outcome == Updated then now else old(lastAvatarUpdate)
    {
      var check := CheckUpload(IsOwner(user), now, lastAvatarUpdate, image);
      if check.Refuse? {
        return Refused(check.reason);
      }
      if editSucceeds {
        outcome := Updated;
        lastAvatarUpdate := now;
      } else {
        outcome := Failed(EditRejected);
      }
    }

    /**
     * `/updatebanner`. Returns the banner field of the PATCH request when one is
     * sent; `readSucceeds` is whether reading the attachment works,
     * `tokenPresent` whether the bot token is in the environment and `reply`
     * what the request brought back. Only status 200 counts as success.
     */
    method UpdateBanner(user: nat, now: int, image: Attachment, readSucceeds: bool, tokenPresent: bool,
                        reply: PatchReply)
      returns (outcome: Outcome, request: Option<string>)
      modifies this`lastBannerUpdate
      ensures var check := CheckUpload(IsOwner(user), now, old(lastBannerUpdate), image);
        && (check.Refuse? ==> outcome == Refused(check.reason) && request == None)
        && (check == Pass && !readSucceeds ==> outcome == Failed(ReadFailed) && request == None)
        && (check == Pass && readSucceeds && !tokenPresent ==> outcome == Failed(MissingToken) && request == None)
        && (check == Pass && readSucceeds && tokenPresent ==>
              && request == Some(BannerPayload(image.data))
              && outcome == match reply
                            case ClientFailure => Failed(ConnectionError)
                            case Status(code) => if code == 200 then Updated else Failed(ApiStatus(code)))
      ensures lastBannerUpdate == if outcome == Updated then now else old(lastBannerUpdate)
    {
      request := None;
      var check := CheckUpload(IsOwner(user), now, lastBannerUpdate, image);
      if check.Refuse? {
        return Refused(check.reason), None;
      }
      if !readSucceeds {
        return Failed(ReadFailed), None;
      }
      if !tokenPresent {
        return Failed(MissingToken), None;
      }
      request := Some(BannerPayload(image.data));
      match reply {
        case ClientFailure =>
          outcome := Failed(ConnectionError);
        case Status(code) =>
          if code == 200 {
            outcome := Updated;
            lastBannerUpdate := now;
          } else {
            outcome := Failed(ApiStatus(code));
          }
      }
    }
  }

  /** Only the configured owners get past the first check. */
  lemma OnlyOwnersPass(updater: AvatarBannerUpdater, user: nat, now: int, last: int, image: Attachment)
    ensures CheckUpload(updater.IsOwner(user), now, last, image) == Refuse(NotOwner) <==> user !in updater.ownerIds
  {
  }
}
