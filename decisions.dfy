/**
 * The three decision slots of a draw.io decision node (`decision0_id` ..
 * `decision2_label`) and the two ways the pipeline moves between them and the
 * one-column form: compacting the slots into a `", "`-joined list, and
 * spreading a split list back over three slots.
 */
module Decisions {
  import opened Strings
  import opened Tables

  /** `filter(None, xs)` on strings keeps exactly the non-empty ones. */
  predicate Present(s: string) {
    s != ""
  }

  /** `', '.join(filter(None, parts))`. */
  function Compact(parts: seq<string>): string {
    Join(Filter(parts, Present), ", ")
  }

  /** Slots that are all empty compact to an empty cell. */
  lemma CompactAllEmpty(parts: seq<string>)
    requires forall i | 0 <= i < |parts| :: !Present(parts[i])
    ensures Compact(parts) == ""
  {
    FilterNone(parts, Present);
  }

  /**
   * `list(zip(xs + [None] * 3, ...))[:3]` seen from one side: the first three
   * items of `xs`, with the missing ones written as empty cells (the CSV writer
   * prints `None` as nothing).
   */
  function Spread(xs: seq<string>): (r: seq<string>)
    ensures |r| == 3
    ensures |xs| >= 3 ==> r == xs[..3]
    ensures |xs| < 3 ==> r[..|xs|] == xs && forall i | |xs| <= i < 3 :: r[i] == ""
  {
    seq(3, i requires 0 <= i < 3 => if i < |xs| then xs[i] else "")
  }

  /**
   * `[item for pair in zip(ids', labels')[:3] for item in pair]`: the six slot
   * cells in the order id0, label0, id1, label1, id2, label2.
   */
  function Slots(ids: seq<string>, labels: seq<string>): (r: seq<string>)
    ensures |r| == 6
    ensures forall i | 0 <= i < 3 :: r[2 * i] == Spread(ids)[i] && r[2 * i + 1] == Spread(labels)[i]
  {
    var a, b := Spread(ids), Spread(labels);
    [a[0], b[0], a[1], b[1], a[2], b[2]]
  }

  /** No slot value holds the separator. */
  ghost predicate Separable(parts: seq<string>) {
    forall i | 0 <= i < |parts| :: !Contains(parts[i], ", ")
  }

  /** `", "` cannot overlap itself. */
  lemma CommaSpaceNoBorder()
    ensures NoBorder(", ")
  {
    assert ", "[1..] == [' '] && ", "[..1] == [','];
  }

  /**
   * Splitting the compacted list on `", "` gives back the present values in slot
   * order, as long as none of them holds the separator.
   */
  lemma CompactSplit(parts: seq<string>)
    requires exists i | 0 <= i < |parts| :: Present(parts[i])
    requires Separable(parts)
    ensures Split(Compact(parts), ", ") == Filter(parts, Present)
  {
    var kept := Filter(parts, Present);
    FilterMembers(parts, Present);
    var i :| 0 <= i < |parts| && Present(parts[i]);
    assert parts[i] in kept;
    forall k | 0 <= k < |kept|
      ensures !Contains(kept[k], ", ")
    {
      assert kept[k] in parts;
    }
    CommaSpaceNoBorder();
    SplitJoin(kept, ", ");
  }

  /**
   * Three filled slots survive compaction and spreading on `", "` unchanged: the
   * round trip between the two column layouts when no slot is empty.
   */
  lemma SpreadCompact(parts: seq<string>)
    requires |parts| == 3 && Separable(parts)
    requires forall i | 0 <= i < 3 :: Present(parts[i])
    ensures Spread(Split(Compact(parts), ", ")) == parts
  {
    CompactSplit(parts);
    FilterAll(parts, Present);
  }

  /** Empty slots leave nothing in the compacted list. */
  lemma CompactSkipsEmpty(parts: seq<string>)
    ensures Compact(parts) == Compact(Filter(parts, Present))
  {
    FilterIdempotent(parts, Present);
  }

  /** A value without a comma cannot hold the separator. */
  lemma NoCommaSeparable(s: string)
    requires ',' !in s
    ensures !Contains(s, ", ")
  {
    forall i: nat
      ensures !OccursAt(s, ", ", i)
    {
      if i + 2 <= |s| {
        assert s[i..i + 2][0] == s[i] && s[i] in s;
      }
    }
  }

  /** Two comma-free values joined with `", "` split back into the same two. */
  lemma SplitPair(a: string, b: string)
    requires ',' !in a && ',' !in b
    ensures Split(a + ", " + b, ", ") == [a, b]
  {
    NoCommaSeparable(a);
    NoCommaSeparable(b);
    CommaSpaceNoBorder();
    SplitJoin([a, b], ", ");
    assert Join([a, b], ", ") == a + ", " + b by {
      assert [a, b][1..] == [b];
    }
  }

  /** The present values of three slots, the first of them empty. */
  lemma FilterFirstEmpty(b: string, c: string)
    requires Present(b) && Present(c)
    ensures Filter(["", b, c], Present) == [b, c]
  {
    FilterSnoc([], "", Present);
    FilterSnoc([""], b, Present);
    FilterSnoc(["", b], c, Present);
    assert [] + [""] == [""] && [""] + [b] == ["", b] && ["", b] + [c] == ["", b, c];
  }

  /** The present values of three slots, the last of them empty. */
  lemma FilterLastEmpty(a: string, b: string)
    requires Present(a) && Present(b)
    ensures Filter([a, b, ""], Present) == [a, b]
  {
    FilterSnoc([], a, Present);
    FilterSnoc([a], b, Present);
    FilterSnoc([a, b], "", Present);
    assert [] + [a] == [a] && [a] + [b] == [a, b] && [a, b] + [""] == [a, b, ""];
  }

  /**
   * Ids and labels are compacted separately, so an empty id beside a filled
   * label moves the later ids one slot forward while the labels stay: the id
   * `4` of slot 1 ends up next to the label `Yes` of slot 0.
   */
  lemma CompactMisaligns()
    ensures Compact(["", "4", "6"]) == "4, 6"
    ensures Compact(["Yes", "No", ""]) == "Yes, No"
    ensures Slots(Split("4, 6", ", "), Split("Yes, No", ", ")) == ["4", "Yes", "6", "No", "", ""]
  {
    FilterFirstEmpty("4", "6");
    FilterLastEmpty("Yes", "No");
    assert Join(["4", "6"], ", ") == "4" + ", " + "6" by {
      assert ["4", "6"][1..] == ["6"];
    }
    assert Join(["Yes", "No"], ", ") == "Yes" + ", " + "No" by {
      assert ["Yes", "No"][1..] == ["No"];
    }
    SplitPair("4", "6");
    SplitPair("Yes", "No");
  }
}
