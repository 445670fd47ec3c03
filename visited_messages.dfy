/**
  The record of which classes the encoder has entered at which nesting
  levels (a `HashMap<String, List<Integer>>`), and the circular-reference
  test on it: a class is circular once it has been entered at a level
  other than the current one.
 */
module Visits {

  type VisitMap = map<string, seq<int>>

  /** `markClassAsVisited`: append the level to the class's list, creating the list on first visit. */
  function MarkVisited(m: VisitMap, className: string, level: int): (r: VisitMap)
    ensures className in r && |r[className]| >= 1 && r[className][|r[className]| - 1] == level
    ensures r[className] == (if className in m then m[className] else []) + [level]
    ensures Extends(m, r)
    ensures forall c :: c in r && c != className ==> c in m && r[c] == m[c]
  {
    var before := if className in m then m[className] else [];
    m[className := before + [level]]
  }

  /** `isCircularReference`: some recorded level of the class differs from the current one. */
  predicate SeenAtOtherLevel(m: VisitMap, className: string, level: int)
  {
    className in m && exists k :: 0 <= k < |m[className]| && m[className][k] != level
  }

  /** `m'` keeps every class of `m`, and each class's list only gains entries at its end. */
  predicate Extends(m: VisitMap, m': VisitMap)
  {
    forall c :: c in m ==> c in m' && m[c] <= m'[c]
  }

  lemma ExtendsTransitive(m: VisitMap, m': VisitMap, m'': VisitMap)
    requires Extends(m, m') && Extends(m', m'')
    ensures Extends(m, m'')
  {
    forall c | c in m
      ensures c in m'' && m[c] <= m''[c]
    {
      assert m[c] <= m'[c] && m'[c] <= m''[c];
      assert m'[c][..|m[c]|] == m[c];
    }
  }

  /**
    Marking and then testing reports a circular reference exactly when the
    class had already been entered at a different level; so the first
    visit of a class never does.
   */
  lemma CircularIffEnteredElsewhere(m: VisitMap, className: string, level: int)
    ensures SeenAtOtherLevel(MarkVisited(m, className, level), className, level)
      <==> SeenAtOtherLevel(m, className, level)
    ensures className !in m ==> !SeenAtOtherLevel(MarkVisited(m, className, level), className, level)
  {
    var r := MarkVisited(m, className, level);
    if SeenAtOtherLevel(r, className, level) {
      var k :| 0 <= k < |r[className]| && r[className][k] != level;
      assert k < |r[className]| - 1;
      assert className in m && m[className][k] != level;
    }
    if SeenAtOtherLevel(m, className, level) {
      var k :| 0 <= k < |m[className]| && m[className][k] != level;
      assert r[className][k] != level;
    }
  }

  /**
    The visit map as a mutable object shared by all levels of one
    serialisation. The map `levels` is its whole state: any map is a
    possible state, so there is no validity predicate.
   */
  class VisitedMessages {
    var levels: VisitMap

    constructor()
      ensures levels == map[]
    {
      levels := map[];
    }

    method MarkClassAsVisited(className: string, currentLevel: int)
      modifies this
      ensures levels == MarkVisited(old(levels), className, currentLevel)
    {
      if className !in levels {
        levels := levels[className := []];
      }
      levels := levels[className := levels[className] + [currentLevel]];
    }

    method IsCircularReference(className: string, currentLevel: int) returns (circular: bool)
      ensures circular == SeenAtOtherLevel(levels, className, currentLevel)
    {
      circular := className in levels && exists k :: 0 <= k < |levels[className]| && levels[className][k] != currentLevel;
    }
  }
}
