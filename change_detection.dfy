/** The cheap pre-check of the watcher: is the freshly fetched page the same
    as the latest stored snapshot, ignoring a fixed-length prefix that holds
    a timestamp? */
module ChangeDetection {
  import opened Outcomes

  /** Number of leading characters skipped by the comparison. */
  const TimestampSkip: nat := 200

  /** Python's `s[k:]`: the suffix from index `k`, or the empty string when
      `k` is past the end. */
  function SliceFrom(s: string, k: nat): (r: string)
    ensures k <= |s| ==> r == s[k..]
    ensures k >= |s| ==> r == []
  {
    if k <= |s| then s[k..] else []
  }

  /** Reference definition: the texts have the same length once lengths
      below `skip` are counted as `skip`, and agree at every index from
      `skip` onward. */
  ghost predicate AgreeFrom(a: string, b: string, skip: nat) {
    && (if |a| < skip then skip else |a|) == (if |b| < skip then skip else |b|)
    && forall i :: skip <= i < |a| ==> a[i] == b[i]
  }

  /** The comparison `raw[skip:] == prior[skip:]`. */
  predicate SameAfterSkip(raw: string, prior: string, skip: nat)
    ensures |raw| <= skip ==> (SameAfterSkip(raw, prior, skip) <==> |prior| <= skip)
    ensures SameAfterSkip(raw, prior, skip) && skip < |raw| ==> |raw| == |prior|
  {
    SliceFrom(raw, skip) == SliceFrom(prior, skip)
  }

  /** The slice comparison is the character-wise agreement from `skip` on. */
  lemma SameAfterSkipIsAgreement(raw: string, prior: string, skip: nat)
    ensures SameAfterSkip(raw, prior, skip) <==> AgreeFrom(raw, prior, skip)
  {
    var x, y := SliceFrom(raw, skip), SliceFrom(prior, skip);
    if SameAfterSkip(raw, prior, skip) {
      forall i | skip <= i < |raw| ensures raw[i] == prior[i] {
        assert raw[i] == x[i - skip] == y[i - skip] == prior[i];
      }
    }
    if AgreeFrom(raw, prior, skip) {
      if skip <= |raw| {
        assert |x| == |y|;
        forall i | 0 <= i < |x| ensures x[i] == y[i] {
          assert x[i] == raw[i + skip];
        }
      }
    }
  }

  /** Differences confined to the first `skip` characters are ignored: two
      texts that share everything after prefixes of length `skip` compare
      the same, whatever those prefixes are, and otherwise they do not. */
  lemma {:induction false} PrefixIgnored(p: string, q: string, a: string, b: string, skip: nat)
    requires |p| == skip && |q| == skip
    ensures SameAfterSkip(p + a, q + b, skip) <==> a == b
  {
    assert (p + a)[skip..] == a;
    assert (q + b)[skip..] == b;
  }

  /** Every text compares the same as itself. */
  lemma Reflexive(a: string, skip: nat)
    ensures SameAfterSkip(a, a, skip)
  {
  }

  /** The comparison does not depend on which text is the prior one. */
  lemma Symmetric(a: string, b: string, skip: nat)
    ensures SameAfterSkip(a, b, skip) <==> SameAfterSkip(b, a, skip)
  {
  }

  /** Two texts no longer than `skip` always compare the same, because slicing
      past the end yields the empty string. */
  lemma ShortTextsAreSame(a: string, b: string, skip: nat)
    requires |a| <= skip && |b| <= skip
    ensures SameAfterSkip(a, b, skip)
  {
  }

  /** What `data_is_the_same` hands back: the verdict, the text it compared
      against, and the snapshot it wrote to disk, if any. */
  datatype Verdict = Verdict(same: bool, oldRaw: string, recorded: Option<string>)

  /** The change check. `latest` is the text of the most recent stored
      snapshot (`None` when no snapshot directory exists yet); `refetched` is
      what a second fetch returns in that bootstrap case. */
  function DataIsTheSame(raw: string, latest: Option<string>, refetched: string): (v: Verdict)
    ensures latest.None? ==> v.same && v.oldRaw == refetched && v.recorded == Some(refetched)
    ensures latest.Some? ==> v.recorded == None && v.oldRaw == latest.value
    ensures latest.Some? ==> (v.same <==> AgreeFrom(raw, latest.value, TimestampSkip))
  {
    match latest
    case None => Verdict(true, refetched, Some(refetched))
    case Some(stored) =>
      SameAfterSkipIsAgreement(raw, stored, TimestampSkip);
      Verdict(SameAfterSkip(raw, stored, TimestampSkip), stored, None)
  }

  /** A page compared with a stored copy of itself is never reported as
      changed. */
  lemma UnchangedPageIsSame(raw: string, refetched: string)
    ensures DataIsTheSame(raw, Some(raw), refetched).same
  {
  }
}
