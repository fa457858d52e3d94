/** Choosing a version (crates/elu-resolver/src/version.rs). */
module Versions {
  import opened Wrappers
  import opened Types

  /** What elu takes from the semver crate. `leq` is the order of versions. */
  datatype Semver = Semver(
    matches: (VersionReq, Version) -> bool,
    isPre: Version -> bool,
    leq: (Version, Version) -> bool,
    optsIn: VersionReq -> bool)

  ghost predicate TotalOrder(sv: Semver) {
    && (forall a, b :: sv.leq(a, b) || sv.leq(b, a))
    && (forall a, b :: sv.leq(a, b) && sv.leq(b, a) ==> a == b)
    && (forall a, b, c :: sv.leq(a, b) && sv.leq(b, c) ==> sv.leq(a, c))
  }

  /** Pre-releases count only when the requirement itself mentions one. */
  predicate Eligible(sv: Semver, req: VersionReq, v: Version) {
    (sv.optsIn(req) || !sv.isPre(v)) && sv.matches(req, v)
  }

  function HighestMatch(sv: Semver, req: VersionReq, candidates: seq<Version>): (r: Option<Version>)
  {
    if candidates == [] then None
    else
      var last := candidates[|candidates| - 1];
      match HighestMatch(sv, req, candidates[..|candidates| - 1])
      case None => if Eligible(sv, req, last) then Some(last) else None
      case Some(best) => if Eligible(sv, req, last) && sv.leq(best, last) then Some(last) else Some(best)
  }

  ghost predicate IsHighest(sv: Semver, req: VersionReq, candidates: seq<Version>, v: Version) {
    && v in candidates && Eligible(sv, req, v)
    && forall w | w in candidates && Eligible(sv, req, w) :: sv.leq(w, v)
  }

  /** The result is the greatest eligible candidate, and there is one unless none is eligible. */
  lemma {:induction false} HighestMatchIsHighest(sv: Semver, req: VersionReq, candidates: seq<Version>)
    requires TotalOrder(sv)
    ensures match HighestMatch(sv, req, candidates)
            case Some(v) => IsHighest(sv, req, candidates, v)
            case None => forall v | v in candidates :: !Eligible(sv, req, v)
  {
    if candidates != [] {
      var front, last := candidates[..|candidates| - 1], candidates[|candidates| - 1];
      HighestMatchIsHighest(sv, req, front);
      assert forall w :: w in candidates <==> w in front || w == last by {
        assert candidates == front + [last];
      }
    }
  }

  lemma HighestIsUnique(sv: Semver, req: VersionReq, a: seq<Version>, b: seq<Version>, v: Version)
    requires TotalOrder(sv) && IsHighest(sv, req, a, v) && IsHighest(sv, req, b, v)
    ensures HighestMatch(sv, req, a) == HighestMatch(sv, req, b) == Some(v)
  {
    HighestMatchIsHighest(sv, req, a);
    HighestMatchIsHighest(sv, req, b);
  }
}
