/** Resolving one reference: framework resolvers in turn, then imports, then the name
    matcher; a sure answer ends the search, otherwise the most confident one is taken. */
module Resolver {
  import opened Graph
  import opened NameMatcher

  /** What one framework resolver says. */
  datatype Answer = Hit(found: Match) | Miss | Fault

  const SURE: real := 0.9

  predicate IsSure(m: Match) { m.confidence >= SURE }

  /** The answers of the resolvers asked so far, in order; faults are skipped. */
  function Hits(answers: seq<Answer>): seq<Match>
  {
    if |answers| == 0 then []
    else Hits(answers[..|answers|-1]) + if answers[|answers|-1].Hit? then [answers[|answers|-1].found] else []
  }

  function One(m: Option<Match>): seq<Match> { if m.Some? then [m.value] else [] }

  /** m is the last of the most confident candidates. */
  ghost predicate IsLastBest(candidates: seq<Match>, m: Match)
  {
    exists k :: 0 <= k < |candidates| && candidates[k] == m
                && (forall i :: 0 <= i < |candidates| ==> candidates[i].confidence <= m.confidence)
                && (forall i :: k < i < |candidates| ==> candidates[i].confidence < m.confidence)
  }

  ghost predicate NoneSure(answers: seq<Answer>)
  {
    forall a :: a in answers && a.Hit? ==> a.found.confidence < 0.9
  }

  /** `max_by` over the candidates. */
  method MostConfident(candidates: seq<Match>) returns (best: Option<Match>)
    ensures best.None? <==> candidates == []
    ensures best.Some? ==> IsLastBest(candidates, best.value)
  {
    best := None;
    ghost var k := 0;
    for i := 0 to |candidates|
      invariant best.None? <==> i == 0
      invariant best.Some? ==> 0 <= k < i && candidates[k] == best.value
                               && (forall j :: 0 <= j < i ==> candidates[j].confidence <= best.value.confidence)
                               && (forall j :: k < j < i ==> candidates[j].confidence < best.value.confidence)
    {
      if best.None? || candidates[i].confidence >= best.value.confidence {
        best := Some(candidates[i]);
        k := i;
      }
    }
  }

  /** Built-ins and names nothing can match are skipped. The first sure framework answer
      wins, even over a better one to come; then a sure import; otherwise the last of the
      most confident answers, so that a tie goes to the name matcher. */
  method ResolveOne(skip: bool, answers: seq<Answer>, viaImport: Option<Match>, viaName: Option<Match>)
    returns (r: Option<Match>)
    ensures skip ==> r.None?
    ensures !skip ==> forall k :: 0 <= k < |answers| && NoneSure(answers[..k]) && answers[k].Hit? ==>
              answers[k].found.confidence >= 0.9 ==> r == Some(answers[k].found)
    ensures !skip && NoneSure(answers) && viaImport.Some? && viaImport.value.confidence >= 0.9 ==> r == viaImport
    ensures !skip && NoneSure(answers) && !(viaImport.Some? && viaImport.value.confidence >= 0.9) ==>
              var all := Hits(answers) + One(viaImport) + One(viaName);
              (r.None? <==> all == []) && (r.Some? ==> IsLastBest(all, r.value))
  {
    if skip {
      return None;
    }
    var candidates := [];
    for i := 0 to |answers|
      invariant candidates == Hits(answers[..i]) && NoneSure(answers[..i])
    {
      assert answers[..i+1] == answers[..i] + [answers[i]] && answers[..i+1][..i] == answers[..i];
      match answers[i] {
        case Hit(found) =>
          if IsSure(found) {
            assert answers[i] in answers;
            return Some(found);
          }
          candidates := candidates + [found];
        case Miss =>
        case Fault =>
      }
    }
    assert answers[..|answers|] == answers;
    if viaImport.Some? {
      if IsSure(viaImport.value) {
        return viaImport;
      }
      candidates := candidates + [viaImport.value];
    }
    if viaName.Some? {
      candidates := candidates + [viaName.value];
    }
    assert candidates == Hits(answers) + One(viaImport) + One(viaName);
    r := MostConfident(candidates);
  }

}
