/**
 * The journey timeline's tabs: each tab names, in `data-tab`, the id of the
 * section it opens. A click leaves exactly the clicked tab `active`, and
 * exactly the section with that id.
 */
module Journey {
  import Dom

  class TabSet {
    /** `data-tab` of each tab, in document order. */
    const targets: seq<string>
    /** `id` of each journey section, in document order. */
    const sectionIds: seq<string>
    /** Whether each tab carries the `active` class. */
    const tabActive: array<bool>
    /** Whether each section carries the `active` class. */
    const sectionActive: array<bool>

    ghost predicate Valid() {
      && tabActive.Length == |targets|
      && sectionActive.Length == |sectionIds|
      && tabActive != sectionActive
    }

    constructor (targets: seq<string>, sectionIds: seq<string>,
                 tabsAtLoad: seq<bool>, sectionsAtLoad: seq<bool>)
      requires |tabsAtLoad| == |targets| && |sectionsAtLoad| == |sectionIds|
      ensures Valid()
      ensures this.targets == targets && this.sectionIds == sectionIds
      ensures tabActive[..] == tabsAtLoad && sectionActive[..] == sectionsAtLoad
      ensures fresh(tabActive) && fresh(sectionActive)
    {
      this.targets := targets;
      this.sectionIds := sectionIds;
      tabActive := new bool[|tabsAtLoad|](i requires 0 <= i < |tabsAtLoad| => tabsAtLoad[i]);
      sectionActive := new bool[|sectionsAtLoad|](i requires 0 <= i < |sectionsAtLoad| => sectionsAtLoad[i]);
    }

    /** The click handler of tab `t`. `getElementById` gives the first section
        with the tab's target id; when there is none the handler stops with a
        TypeError, leaving no section active, and `found` is false. */
    method Click(t: nat) returns (found: bool)
      requires Valid() && t < |targets|
      modifies tabActive, sectionActive
      ensures found <==> targets[t] in sectionIds
      ensures forall j | 0 <= j < tabActive.Length :: tabActive[j] <==> j == t
      ensures forall s | 0 <= s < sectionActive.Length ::
                sectionActive[s] <==> found && Dom.IsFirst(sectionIds, targets[t], s)
    {
      var j := 0;
      while j < tabActive.Length
        invariant 0 <= j <= tabActive.Length
        invariant forall k | 0 <= k < j :: !tabActive[k]
      {
        tabActive[j] := false;
        j := j + 1;
      }
      var s := 0;
      while s < sectionActive.Length
        invariant 0 <= s <= sectionActive.Length
        invariant forall k | 0 <= k < s :: !sectionActive[k]
        invariant forall k | 0 <= k < tabActive.Length :: !tabActive[k]
      {
        sectionActive[s] := false;
        s := s + 1;
      }
      tabActive[t] := true;
      var section;
      found, section := Dom.FindFirst(sectionIds, targets[t]);
      if found {
        sectionActive[section] := true;
        forall k | 0 <= k < sectionActive.Length && Dom.IsFirst(sectionIds, targets[t], k)
          ensures k == section
        {
          Dom.FirstUnique(sectionIds, targets[t], k, section);
        }
      }
    }
  }

  /** With distinct section ids, the section a click opens is the one whose id
      the tab names. */
  lemma OpenedSectionMatchesTab(sectionIds: seq<string>, target: string, s: int)
    requires forall a, b | 0 <= a < b < |sectionIds| :: sectionIds[a] != sectionIds[b]
    requires 0 <= s < |sectionIds|
    ensures Dom.IsFirst(sectionIds, target, s) <==> sectionIds[s] == target
  {
  }
}
