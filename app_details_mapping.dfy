/**
 * AppDetailsMapping: the computed fields of the mapping from scraped app
 * details to a database row. Each field is a function of the details
 * array; the mapping is built for one app id.
 */
module AppDetails {
  import opened Results
  import opened PhpValues
  import Strings
  import Platforms

  /** The genre whose presence sets `ea`. */
  const EarlyAccessGenre: string := "Early Access"

  // ------------------------------------------------------------ callbacks

  /**
   * `release_date`: null for a falsy or missing date, otherwise the
   * timestamp of the date object; any other truthy value has no
   * getTimestamp() to call.
   */
  function ReleaseDate(data: Data): (r: Result<Option<int>>)
    ensures r == Ok(None) <==> !IsTruthy(Get(data, "release_date"))
    ensures r.Ok? && r.value.Some? <==> Get(data, "release_date").Time?
    ensures r.Ok? && r.value.Some? ==> r.value.value == Get(data, "release_date").timestamp
    ensures r.Err? ==> r.error == TypeError("release_date")
  {
    var d := Get(data, "release_date");
    if !IsTruthy(d) then Ok(None)
    else if d.Time? then Ok(Some(d.timestamp))
    else Err(TypeError("release_date"))
  }

  /** Strict in_array(): some element is identical to `needle`. */
  function InArrayStrict(needle: Datum, haystack: seq<Datum>): (r: bool)
    ensures r <==> exists i :: 0 <= i < |haystack| && haystack[i] == needle
  {
    if haystack == [] then false
    else
      assert forall i :: 1 <= i < |haystack| ==> haystack[i] == haystack[1..][i - 1];
      haystack[0] == needle || InArrayStrict(needle, haystack[1..])
  }

  /**
   * `ea`: 1 when the genres hold the string "Early Access" itself, else 0.
   * in_array() needs an array of genres.
   */
  function EarlyAccess(data: Data): (r: Result<int>)
    ensures r.Ok? <==> Get(data, "genres").List? || Get(data, "genres").Assoc?
    ensures r.Ok? ==> r.value == 0 || r.value == 1
    ensures Get(data, "genres").List? ==>
      (r == Ok(1) <==> exists i :: 0 <= i < |Get(data, "genres").items| && Get(data, "genres").items[i] == Str(EarlyAccessGenre))
    ensures Get(data, "genres").Assoc? ==>
      (r == Ok(1) <==> Str(EarlyAccessGenre) in Get(data, "genres").fields.Values)
    ensures r.Err? ==> r.error == TypeError("genres")
  {
    match Get(data, "genres")
    case List(items) => Ok(if InArrayStrict(Str(EarlyAccessGenre), items) then 1 else 0)
    case Assoc(fields) => Ok(if Str(EarlyAccessGenre) in fields.Values then 1 else 0)
    case _ => Err(TypeError("genres"))
  }

  /**
   * The comparison is strict: a `true` among the genres, which PHP's loose
   * comparison equates with every non-empty string and so with "Early
   * Access", does not count, and neither does any value not identical to
   * that string ("early access", "Early Access ", ...).
   */
  lemma EarlyAccessIsStrict(data: Data, others: seq<Datum>)
    requires Get(data, "genres") == List([Bool(true)] + others)
    requires forall i :: 0 <= i < |others| ==> others[i] != Str(EarlyAccessGenre)
    ensures EarlyAccess(data) == Ok(0)
  {
    var items := Get(data, "genres").items;
    assert forall i :: 0 <= i < |items| ==> items[i] != Str(EarlyAccessGenre) by {
      forall i | 0 <= i < |items| ensures items[i] != Str(EarlyAccessGenre) {
        if i > 0 {
          assert items[i] == others[i - 1];
        }
      }
    }
  }

  /** A number as `+` reads it: null as 0, booleans as 0 or 1, integers as themselves. */
  function AsNumber(d: Datum): (r: Option<int>)
    ensures d.Int? ==> r == Some(d.i)
    ensures d.Null? ==> r == Some(0)
  {
    match d
    case Null => Some(0)
    case Bool(b) => Some(if b then 1 else 0)
    case Int(i) => Some(i)
    case _ => None
  }

  /**
   * `total_reviews`: positive plus negative reviews. A sum beyond the
   * 64-bit range is a float, which the callback's int return type rejects.
   */
  function TotalReviews(data: Data): (r: Result<int>)
    ensures r.Ok? <==>
      && AsNumber(Get(data, "positive_reviews")).Some? && AsNumber(Get(data, "negative_reviews")).Some?
      && InIntRange(AsNumber(Get(data, "positive_reviews")).value + AsNumber(Get(data, "negative_reviews")).value)
    ensures r.Ok? ==>
      r.value == AsNumber(Get(data, "positive_reviews")).value + AsNumber(Get(data, "negative_reviews")).value
    ensures r.Err? ==> r.error == TypeError("total_reviews")
  {
    match (AsNumber(Get(data, "positive_reviews")), AsNumber(Get(data, "negative_reviews")))
    case (Some(positive), Some(negative)) =>
      if InIntRange(positive + negative) then Ok(positive + negative) else Err(TypeError("total_reviews"))
    case _ => Err(TypeError("total_reviews"))
  }

  /** For review counts in range, the total is their sum, bounded below by each and independent of their order. */
  lemma TotalReviewsOfCounts(data: Data, positive: nat, negative: nat)
    requires Get(data, "positive_reviews") == Int(positive) && Get(data, "negative_reviews") == Int(negative)
    requires positive + negative <= IntMax
    ensures TotalReviews(data) == Ok(positive + negative)
    ensures positive <= TotalReviews(data).value && negative <= TotalReviews(data).value
    ensures TotalReviews(data["positive_reviews" := Int(negative)]["negative_reviews" := Int(positive)]) == TotalReviews(data)
  {
  }

  /** The bit `flag` when `d` is truthy, otherwise nothing: `$data[...] && $platforms |= flag`. */
  function FlagIf(d: Datum, flag: bv64): bv64
  {
    if IsTruthy(d) then flag else 0
  }

  /** `platforms`: Windows, Linux and Mac bits for the truthy platform flags. */
  function PlatformMask(data: Data): (r: bv64)
    ensures r <= 7
    ensures r & Platforms.Windows != 0 <==> IsTruthy(Get(data, "windows"))
    ensures r & Platforms.Linux != 0 <==> IsTruthy(Get(data, "linux"))
    ensures r & Platforms.Mac != 0 <==> IsTruthy(Get(data, "mac"))
    ensures r & (Platforms.Vive | Platforms.Oculus | Platforms.Wmr) == 0
  {
    FlagIf(Get(data, "windows"), Platforms.Windows)
      | FlagIf(Get(data, "linux"), Platforms.Linux)
      | FlagIf(Get(data, "mac"), Platforms.Mac)
  }

  /** Every mask of the three desktop bits is produced by some combination of flags. */
  lemma PlatformMaskOnto(mask: bv64)
    requires mask <= 7
    ensures var data := map["windows" := Bool(mask & 1 != 0), "linux" := Bool(mask & 2 != 0), "mac" := Bool(mask & 4 != 0)];
      PlatformMask(data) == mask
  {
    var data := map["windows" := Bool(mask & 1 != 0), "linux" := Bool(mask & 2 != 0), "mac" := Bool(mask & 4 != 0)];
    var r := PlatformMask(data);
    assert r & 1 == mask & 1 && r & 2 == mask & 2 && r & 4 == mask & 4;
  }

  /**
   * `steam_deck`: null unless the key is set to a non-null value, then the
   * id of the compatibility object; any other set value has no toId().
   */
  function SteamDeck(data: Data): (r: Result<Option<int>>)
    ensures r == Ok(None) <==> "steam_deck" !in data || data["steam_deck"] == Null
    ensures r.Ok? && r.value.Some? ==> data["steam_deck"] == Deck(r.value.value)
    ensures r.Err? <==> "steam_deck" in data && data["steam_deck"] != Null && !data["steam_deck"].Deck?
    ensures r.Err? ==> r.error == TypeError("steam_deck")
  {
    if "steam_deck" !in data || data["steam_deck"] == Null then Ok(None)
    else if data["steam_deck"].Deck? then Ok(Some(data["steam_deck"].id))
    else Err(TypeError("steam_deck"))
  }

  /**
   * release_date tests truthiness and steam_deck tests isset(): a set but
   * false value is no date, but it is a steam_deck that cannot be read.
   */
  lemma FalseDateVersusDeck(data: Data)
    requires Get(data, "release_date") == Bool(false) && Get(data, "steam_deck") == Bool(false)
    ensures ReleaseDate(data) == Ok(None)
    ensures SteamDeck(data).Err?
  {
  }

  /**
   * `vrx`, `free` and `adult`: the copied value converted to an integer;
   * a missing key copies as null.
   */
  function IntegerField(data: Data, key: string): int
  {
    ToInt(Get(data, key))
  }

  /** The conversions the integer fields rely on: absent is 0, booleans are 0 and 1, integers and their decimal strings are themselves. */
  lemma IntegerFieldCases(data: Data, key: string)
    ensures key !in data ==> IntegerField(data, key) == 0
    ensures key in data && data[key].Bool? ==> IntegerField(data, key) == if data[key].b then 1 else 0
    ensures key in data && data[key].Int? ==> IntegerField(data, key) == data[key].i
    ensures key in data && data[key].Str? && data[key].s == "" ==> IntegerField(data, key) == 0
    ensures forall i :: InIntRange(i) && key in data && data[key] == Str(Strings.IntToString(i)) ==>
      IntegerField(data, key) == i
  {
    forall i | InIntRange(i) && key in data && data[key] == Str(Strings.IntToString(i))
      ensures IntegerField(data, key) == i
    {
      IntStringRoundTrip(i);
    }
  }

  // ------------------------------------------------------------- mapping

  /** A mapping for one app id. */
  datatype AppDetailsMapping = AppDetailsMapping(appId: int) {
    /**
     * `parent_id`: the copied app_id when it is not identical to this
     * mapping's app id; otherwise the IfElse has no else branch and gives
     * no value.
     */
    function ParentId(data: Data): (r: Option<Datum>)
      ensures r.Some? <==> Get(data, "app_id") != Int(appId)
      ensures r.Some? ==> r.value == Get(data, "app_id")
    {
      var appIdOfData := Get(data, "app_id");
      if appIdOfData != Int(appId) then Some(appIdOfData) else None
    }

    /** `alias`: 1 when canonical_id is not identical to this mapping's app id, else 0. */
    function Alias(data: Data): (r: int)
      ensures r == 0 || r == 1
      ensures r == 1 <==> Get(data, "canonical_id") != Int(appId)
    {
      if Get(data, "canonical_id") != Int(appId) then 1 else 0
    }

    /** The identity tests are strict: an app id given as a string still counts as different. */
    lemma StrictIdentity(data: Data)
      requires Get(data, "app_id") == Str(Strings.IntToString(appId))
      requires Get(data, "canonical_id") == Str(Strings.IntToString(appId))
      ensures ParentId(data) == Some(Str(Strings.IntToString(appId)))
      ensures Alias(data) == 1
    {
    }
  }
}
