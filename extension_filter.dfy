/**
 * The extension filter of the poll-mode tracker: the filter text loses its leading
 * dots, and a file is kept when its lower-cased name ends with "." and the lower-cased
 * extension; an empty extension keeps every file.
 */
module ExtensionFilter {

  /** `s.lstrip('.')`: the filter text without its leading dots. */
  function StripLeadingDots(s: string): string
  {
    if s != [] && s[0] == '.' then StripLeadingDots(s[1..]) else s
  }

  /**
   * The stripped text is a suffix of the filter, everything removed was a dot, and the
   * stripped text does not start with a dot.
   */
  lemma {:induction false} StripLeadingDotsShape(s: string)
    ensures var r := StripLeadingDots(s);
      && |r| <= |s| && r == s[|s| - |r|..]
      && (forall i :: 0 <= i < |s| - |r| ==> s[i] == '.')
      && (r == [] || r[0] != '.')
  {
    if s != [] && s[0] == '.' {
      StripLeadingDotsShape(s[1..]);
      var r := StripLeadingDots(s);
      assert s[1..][|s| - 1 - |r|..] == s[|s| - |r|..];
    }
  }

  /** Lower-casing of one character; only the ASCII letters A-Z change. */
  function LowerChar(c: char): char
  {
    if 'A' <= c <= 'Z' then (c as int - 'A' as int + 'a' as int) as char else c
  }

  /** `s.lower()` on ASCII text. */
  function Lower(s: string): string
  {
    seq(|s|, i requires 0 <= i < |s| => LowerChar(s[i]))
  }

  predicate EndsWith(s: string, suffix: string)
  {
    |suffix| <= |s| && s[|s| - |suffix|..] == suffix
  }

  /** A text made of `k` dots. */
  function Dots(k: nat): (d: string)
    ensures |d| == k
  {
    if k == 0 then [] else "." + Dots(k - 1)
  }

  /** Whether the tracker lists a file with name `fileName` under the filter text `filter`. */
  predicate Keeps(filter: string, fileName: string)
  {
    var ext := StripLeadingDots(filter);
    ext == [] || EndsWith(Lower(fileName), "." + Lower(ext))
  }

  /** A filter that is empty, or made only of dots, keeps every file. */
  lemma EmptyFilterKeepsAll(filter: string, fileName: string)
    requires forall i :: 0 <= i < |filter| ==> filter[i] == '.'
    ensures Keeps(filter, fileName)
  {
    StripLeadingDotsShape(filter);
  }

  /** `s` ends with `suffix` exactly when it is some stem followed by `suffix`. */
  lemma EndsWithIffConcat(s: string, suffix: string)
    ensures EndsWith(s, suffix) <==> exists stem :: s == stem + suffix
  {
    if EndsWith(s, suffix) {
      assert s == s[..|s| - |suffix|] + suffix;
    }
    if exists stem :: s == stem + suffix {
      var stem :| s == stem + suffix;
      assert s[|s| - |suffix|..] == suffix;
    }
  }

  /** A non-empty extension keeps exactly the names that end in "." and that extension, ignoring case. */
  lemma KeepsIffSuffix(filter: string, fileName: string)
    requires StripLeadingDots(filter) != []
    ensures Keeps(filter, fileName) <==>
              exists stem :: Lower(fileName) == stem + "." + Lower(StripLeadingDots(filter))
  {
    var ext := Lower(StripLeadingDots(filter));
    var low := Lower(fileName);
    EndsWithIffConcat(low, "." + ext);
    forall stem: string
      ensures (low == stem + "." + ext) == (low == stem + ("." + ext))
    {
      assert stem + "." + ext == stem + ("." + ext);
    }
  }

  /** One leading dot is stripped. */
  lemma StripOneDot(u: string)
    ensures StripLeadingDots("." + u) == StripLeadingDots(u)
  {
    assert ("." + u)[1..] == u;
  }

  lemma {:induction false} StripDots(k: nat, filter: string)
    ensures StripLeadingDots(Dots(k) + filter) == StripLeadingDots(filter)
  {
    if k > 0 {
      var u := Dots(k - 1) + filter;
      assert Dots(k) + filter == "." + u by {
        assert Dots(k) == "." + Dots(k - 1);
      }
      StripOneDot(u);
      StripDots(k - 1, filter);
    } else {
      assert Dots(k) + filter == filter;
    }
  }

  /** "mp4", ".mp4" and "..mp4" are the same filter: leading dots never matter. */
  lemma LeadingDotsIgnored(k: nat, filter: string, fileName: string)
    ensures Keeps(Dots(k) + filter, fileName) == Keeps(filter, fileName)
  {
    StripDots(k, filter);
  }

  lemma {:induction false} StripCommutesWithLower(s: string)
    ensures StripLeadingDots(Lower(s)) == Lower(StripLeadingDots(s))
  {
    if s != [] && s[0] == '.' {
      assert Lower(s)[1..] == Lower(s[1..]);
      StripCommutesWithLower(s[1..]);
    } else if s != [] {
      assert Lower(s)[0] == LowerChar(s[0]);
    }
  }

  lemma LowerIdempotent(s: string)
    ensures Lower(Lower(s)) == Lower(s)
  {
  }

  /** The filter ignores case on both sides: upper-casing neither the filter nor the name changes the outcome. */
  lemma CaseInsensitive(filter: string, fileName: string)
    ensures Keeps(filter, fileName) == Keeps(Lower(filter), Lower(fileName))
  {
    StripCommutesWithLower(filter);
    LowerIdempotent(fileName);
    LowerIdempotent(StripLeadingDots(filter));
    assert StripLeadingDots(Lower(filter)) == [] <==> StripLeadingDots(filter) == [];
  }

  /** With filter "mp4", "a.mp4" is listed and "b.txt" is not. */
  lemma Mp4Scenario()
    ensures Keeps("mp4", "a.mp4")
    ensures !Keeps("mp4", "b.txt")
  {
    assert StripLeadingDots("mp4") == "mp4";
    assert Lower("mp4") == "mp4";
    assert Lower("a.mp4") == "a.mp4";
    assert Lower("b.txt") == "b.txt";
    assert "b.txt"[1..] != ".mp4" by {
      assert "b.txt"[1..][1] == 't';
    }
  }

  /** The filter ".MP4" lists "clip.mp4": the dot is stripped and case is ignored. */
  lemma DottedUpperCaseScenario()
    ensures Keeps(".MP4", "clip.mp4")
  {
    LeadingDotsIgnored(1, "MP4", "clip.mp4");
    assert Dots(1) + "MP4" == ".MP4";
    assert StripLeadingDots("MP4") == "MP4";
    assert Lower("MP4") == "mp4" by {
      assert LowerChar('M') == 'm' && LowerChar('P') == 'p' && LowerChar('4') == '4';
    }
    assert Lower("clip.mp4") == "clip.mp4";
  }
}
