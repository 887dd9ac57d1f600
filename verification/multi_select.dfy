/** The chart picker (MultiSelectDropdown.js): a click on an option toggles
    its key in the selection. */
module MultiSelect {
  import Seqs
  import Text

  /** `handleToggle`: a selected key is removed (every copy of it), any other
      key is appended at the end. */
  function Toggle(selected: seq<string>, key: string): (r: seq<string>)
    ensures key in r <==> key !in selected
    ensures forall other :: other != key ==> (other in r <==> other in selected)
    ensures key !in selected ==> r == selected + [key]
    ensures key in selected ==> Seqs.IsSubsequence(r, selected) && |r| < |selected|
  {
    if key in selected then
      Seqs.FilterIsSubsequence(selected, (k: string) => k != key);
      var r := Seqs.Filter(selected, (k: string) => k != key);
      assert Seqs.CountWhere(selected, (k: string) => k != key) < |selected| by {
        var i :| 0 <= i < |selected| && selected[i] == key;
        CountBelowLength(selected, key, i);
      }
      r
    else selected + [key]
  }

  lemma {:induction false} CountBelowLength(s: seq<string>, key: string, i: nat)
    requires i < |s| && s[i] == key
    ensures Seqs.CountWhere(s, (k: string) => k != key) < |s|
  {
    if i > 0 {
      CountBelowLength(s[1..], key, i - 1);
    }
  }

  /** Toggling keeps a selection free of duplicates. */
  lemma ToggleKeepsDistinct(selected: seq<string>, key: string)
    requires Seqs.NoDuplicates(selected)
    ensures Seqs.NoDuplicates(Toggle(selected, key))
  {
    if key in selected {
      Seqs.FilterNoDuplicates(selected, (k: string) => k != key);
    }
  }

  /** Toggling an unselected key twice gives back the same list; toggling a
      selected key twice gives back the same set, the key moved to the end. */
  lemma ToggleTwice(selected: seq<string>, key: string)
    ensures key !in selected ==> Toggle(Toggle(selected, key), key) == selected
    ensures forall k :: k in Toggle(Toggle(selected, key), key) <==> k in selected
  {
    if key !in selected {
      var keep := (k: string) => k != key;
      Seqs.FilterAppend(selected, [key], keep);
      Seqs.FilterAll(selected, keep);
      assert Seqs.Filter([key], keep) == [];
    }
  }

  /** The button text. */
  function Summary(selected: seq<string>): (r: string)
    ensures |selected| == 0 ==> r == "Select charts to display"
    ensures |selected| > 0 ==> r == Text.NatToString(|selected|) + " chart(s) selected"
  {
    if |selected| == 0 then "Select charts to display"
    else Text.NatToString(|selected|) + " chart(s) selected"
  }

  /** The text tells the size of the selection: a non-empty one starts with
      digits that read back as the number of charts, and selections of
      different sizes never show the same text. */
  lemma SummaryShowsCount(a: seq<string>, b: seq<string>)
    ensures |a| > 0 ==>
      var digits := Summary(a)[..|Summary(a)| - |" chart(s) selected"|];
      Text.AllDigits(digits) && Text.DigitsValue(digits) == |a|
    ensures |a| != |b| ==> Summary(a) != Summary(b)
  {
    var suffix := " chart(s) selected";
    if |a| > 0 {
      assert Summary(a)[..|Summary(a)| - |suffix|] == Text.NatToString(|a|);
      Text.NatToStringRoundTrip(|a|);
    }
    if |a| != |b| && Summary(a) == Summary(b) {
      if |a| > 0 && |b| > 0 {
        var x, y := Text.NatToString(|a|), Text.NatToString(|b|);
        assert |x| == |y|;
        assert x == (x + suffix)[..|x|] == (y + suffix)[..|y|] == y;
        Text.NatToStringRoundTrip(|a|);
        Text.NatToStringRoundTrip(|b|);
      } else {
        var n := if |a| > 0 then |a| else |b|;
        assert Text.IsAsciiDigit(Text.NatToString(n)[0]);
        assert (Text.NatToString(n) + suffix)[0] == Text.NatToString(n)[0];
      }
    }
  }
}
