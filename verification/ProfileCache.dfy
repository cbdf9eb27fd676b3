/** The per-handler profile cache (manyfaced/handlers/base_handler.py, class HTTPHandlerBase): an
    OrderedDict with move_to_end and popitem, holding the profile objects themselves. */
module ProfileCache {
  import opened Wrappers
  import opened Lru
  import BotProfiles

  const MAX_PROFILES: nat := 1000

  class HandlerProfiles {
    var botProfiles: Dict<BotProfiles.BotProfile>
    ghost var trace: seq<Event<BotProfiles.BotProfile>>

    ghost predicate Valid()
      reads this
    {
      HitsArePresent(MAX_PROFILES, trace) && botProfiles == Replay(MAX_PROFILES, trace)
    }

    constructor ()
      ensures Valid() && trace == []
    {
      botProfiles, trace := [], [];
    }

    /** A known address gets the very object stored for it; an unknown one a fresh profile. */
    method GetOrCreateProfile(botIp: string) returns (profile: BotProfiles.BotProfile)
      requires Valid()
      modifies this
      ensures Valid() && |botProfiles| <= 1000
      ensures if Has(old(botProfiles), botIp) then
                && trace == old(trace) + [Hit(botIp)]
                && LastStored(old(trace), botIp) == Some(profile)
                && botProfiles == Touched(old(botProfiles), botIp)
              else
                && fresh(profile) && profile.Contents() == BotProfiles.FRESH
                && trace == old(trace) + [Store(botIp, profile)]
                && botProfiles == Stored(old(botProfiles), botIp, profile, MAX_PROFILES)
    {
      CacheIsLeastRecentlyUsed(MAX_PROFILES, trace);
      if Has(botProfiles, botIp) {
        profile := Use(botIp);
        return;
      }
      assert Distinct(botProfiles);
      hide Replay, HitsArePresent, Fits, LastStored, Pop, Put, Distinct;
      ghost var rest := botProfiles;
      ghost var gone := 0;
      while |botProfiles| >= MAX_PROFILES
        invariant gone <= |rest| && botProfiles == rest[gone..] && trace == old(trace)
        invariant gone == 0 || |botProfiles| == MAX_PROFILES - 1
      {
        botProfiles := botProfiles[1..];
        gone := gone + 1;
      }
      assert botProfiles == Newest(rest, MAX_PROFILES - 1);
      profile := new BotProfiles.BotProfile(botIp);
      NextEvent(MAX_PROFILES, trace, Store(botIp, profile));
      PutAfterTrimming(rest, botIp, profile, MAX_PROFILES);
      botProfiles := Put(botProfiles, botIp, profile);
      trace := trace + [Store(botIp, profile)];
    }

    /** move_to_end, then the lookup. */
    method Use(botIp: string) returns (profile: BotProfiles.BotProfile)
      requires Valid() && Has(botProfiles, botIp)
      modifies this
      ensures Valid() && |botProfiles| <= 1000
      ensures trace == old(trace) + [Hit(botIp)]
      ensures LastStored(old(trace), botIp) == Some(profile)
      ensures botProfiles == Touched(old(botProfiles), botIp)
    {
      CacheIsLeastRecentlyUsed(MAX_PROFILES, trace);
      GetFits(trace, botProfiles, botIp);
      profile := Get(botProfiles, botIp);
      botProfiles := Touched(botProfiles, botIp);
      assert (trace + [Hit(botIp)])[..|trace|] == trace;
      trace := trace + [Hit(botIp)];
      CacheIsLeastRecentlyUsed(MAX_PROFILES, trace);
    }

    method GetProfile(botIp: string) returns (profile: Option<BotProfiles.BotProfile>)
      requires Valid()
      modifies this
      ensures Valid() && |botProfiles| <= 1000
      ensures if Has(old(botProfiles), botIp) then
                && trace == old(trace) + [Hit(botIp)]
                && profile.Some? && LastStored(old(trace), botIp) == profile
                && botProfiles == Touched(old(botProfiles), botIp)
              else
                && profile == None && trace == old(trace) && botProfiles == old(botProfiles)
    {
      CacheIsLeastRecentlyUsed(MAX_PROFILES, trace);
      if Has(botProfiles, botIp) {
        var p := Use(botIp);
        return Some(p);
      }
      return None;
    }

    method ClearProfile(botIp: string)
      requires Valid()
      modifies this
      ensures Valid() && |botProfiles| <= 1000
      ensures trace == old(trace) + [Delete(botIp)] && !Has(botProfiles, botIp)
      ensures forall other :: other != botIp ==> (Has(botProfiles, other) <==> Has(old(botProfiles), other))
    {
      CacheIsLeastRecentlyUsed(MAX_PROFILES, trace);
      PopIsDistinct(botProfiles, botIp);
      forall other | other != botIp
        ensures Has(Pop(botProfiles, botIp), other) <==> Has(botProfiles, other)
      {
        OthersStay(botProfiles, botIp, other);
      }
      if Has(botProfiles, botIp) {
        botProfiles := Pop(botProfiles, botIp);
      }
      assert (trace + [Delete(botIp)])[..|trace|] == trace;
      trace := trace + [Delete(botIp)];
    }
  }
}
