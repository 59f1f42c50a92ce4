/** A session that replaces its indicator set wholesale and answers from a fresh index. */
module RefreshSession {
  import opened Text
  import opened Ipv4
  import opened Indicators
  import opened DomainNames
  import opened IndexSpec
  import opened IndexRuns
  import opened IndicatorIndexes
  import opened IndicatorText
  import opened Refinement

  /** URL hosts are stored without a validity check: those left with a leading wildcard are the exception below. */
  ghost predicate UrlHostsStable(inds: seq<Indicator>) {
    forall i :: i in inds && i.kind == Url ==> Stable(HostOf(i))
  }

  /** The exact condition on hosts, for space-free names. */
  ghost predicate UrlHostsAgreeable(inds: seq<Indicator>) {
    forall i :: i in inds && i.kind == Url ==> Agreeable(HostOf(i))
  }

  class IndicatorRefreshSession {
    var currentSet: IndicatorSet
    var index: IndicatorIndex
    var refreshGeneration: nat

    ghost predicate Valid()
      reads this, index
    {
      && index.Valid()
      && Active(index.records) == currentSet.indicators
      && (forall i :: i in currentSet.indicators ==> WellParsed(i))
      && DistinctKeys(currentSet.indicators)
    }

    constructor ()
      ensures Valid() && fresh(index) && currentSet == IndicatorSet([], []) && refreshGeneration == 0
    {
      currentSet := IndicatorSet([], []);
      index := new IndicatorIndex();
      refreshGeneration := 0;
    }

    /** Nothing of the previous snapshot survives: the set and the index are those of the text alone. */
    method IngestSnapshot(text: string, source: string) returns (added: nat)
      modifies this
      ensures Valid() && fresh(index) && refreshGeneration == old(refreshGeneration) + 1
      ensures var all := AcceptedLines(Fields(text, '\n'), source);
              currentSet == IndicatorSet(FirstByKey(all), LaterByKey(all))
      ensures added == |currentSet.indicators|
      ensures index.Model() == Run(INITIAL, Adds(currentSet.indicators))
    {
      hide AcceptedLines, FirstByKey, LaterByKey, WellParsed, Fields, DistinctKeys, AllPrepared, Run, Keys, IndicatorKey;
      currentSet := ParseText(text, source);
      index := new IndicatorIndex();
      added := index.AddSet(currentSet.indicators);
      refreshGeneration := refreshGeneration + 1;
      ghost var all := AcceptedLines(Fields(text, '\n'), source);
      AcceptedAreWellParsed(Fields(text, '\n'), source);
      DedupeIsExact(all);
      PreparedAlready(currentSet.indicators);
      assert [] + Adds(currentSet.indicators) == Adds(currentSet.indicators);
    }

    method MatchCachedCidr(ip: U32, field: string) returns (out: seq<MatchResult>)
      requires Valid()
      ensures out == IpAnswer(currentSet.indicators, ip, field)
      ensures multiset(out) == multiset(IpMatches(currentSet.indicators, ip, field))
    {
      out := index.LookupIp(ip, field);
      ParsedAreConsistent(currentSet.indicators);
      IpAnswersAgree(currentSet.indicators, ip, field);
    }

    /** The session agrees with the linear scan of its current set, up to order. */
    method MatchPacket(md: Observed) returns (out: seq<MatchResult>)
      requires Valid()
      ensures out == PacketAnswer(currentSet.indicators, md)
      ensures UrlHostsStable(currentSet.indicators) && (forall n :: n in md.names ==> Clean(n)) ==>
                multiset(out) == multiset(ScanPacket(currentSet.indicators, md))
      ensures UrlHostsAgreeable(currentSet.indicators) && (forall n :: n in md.names ==> NoSpaces(n)) ==>
                multiset(out) == multiset(ScanPacket(currentSet.indicators, md))
    {
      hide PacketAnswer, ScanPacket, Clean, NoSpaces, WellParsed, Stable, Unmatchable, HostOf, DistinctKeys, ConsistentIp, ConsistentName;
      out := index.MatchPacket(md);
      if UrlHostsStable(currentSet.indicators) && forall n :: n in md.names ==> Clean(n) {
        ParsedAreConsistent(currentSet.indicators);
        IndexRefinesScan(currentSet.indicators, md);
      }
      if UrlHostsAgreeable(currentSet.indicators) && forall n :: n in md.names ==> NoSpaces(n) {
        ParsedAreAgreeable(currentSet.indicators);
        AgreeableRefinesScan(currentSet.indicators, md);
      }
    }
  }

  /** Parsed indicators already carry their normal form. */
  lemma PreparedAlready(inds: seq<Indicator>)
    requires forall i :: i in inds ==> WellParsed(i)
    ensures AllPrepared(inds) == inds
  {
    forall k | 0 <= k < |inds| ensures Prepared(inds[k]) == inds[k] { assert inds[k] in inds; }
  }

  lemma ParsedAreConsistent(inds: seq<Indicator>)
    requires forall i :: i in inds ==> WellParsed(i)
    ensures forall i :: i in inds ==> ConsistentIp(i)
    ensures UrlHostsStable(inds) ==> forall i :: i in inds ==> ConsistentName(i)
  {
    hide Stable;
  }

  lemma ParsedAreAgreeable(inds: seq<Indicator>)
    requires (forall i :: i in inds ==> WellParsed(i)) && UrlHostsAgreeable(inds)
    ensures forall i :: i in inds ==> ConsistentIp(i)
    ensures forall i :: i in inds && NamedHost(i) ==> Agreeable(HostOf(i))
  {
    hide Stable, Unmatchable, ConsistentIp, WellParsed;
    ParsedAreConsistent(inds);
    forall i | i in inds && NamedHost(i) ensures Agreeable(HostOf(i)) {
      if i.kind == Domain { ParsedDomainIsStable(i); }
    }
  }

  lemma ParsedDomainIsStable(i: Indicator)
    requires WellParsed(i) && i.kind == Domain
    ensures Stable(HostOf(i))
  {
    hide Stable;
  }
}
