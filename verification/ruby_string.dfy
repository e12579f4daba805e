/**
 The two Ruby core-library string operations the switch DSL relies on:
 `String#split` with a one-character string pattern and no limit, and
 `Array#join` with a one-character separator.
 */
module RubyString {

  /** The pieces of `s` between occurrences of `sep`, keeping every empty piece. */
  function Fields(s: string, sep: char): (fs: seq<string>)
    ensures |fs| >= 1
    ensures forall i :: 0 <= i < |fs| ==> sep !in fs[i]
    decreases |s|
  {
    if |s| == 0 then [""]
    else
      var rest := Fields(s[1..], sep);
      assert s == [s[0]] + s[1..];
      if s[0] == sep then [""] + rest
      else [[s[0]] + rest[0]] + rest[1..]
  }

  /** Removes the empty strings at the end of `fs`, as Ruby's split does with no limit. */
  function DropTrailingEmpty(fs: seq<string>): (r: seq<string>)
    ensures |r| <= |fs| && r == fs[..|r|]
    ensures |r| == 0 || r[|r| - 1] != ""
    ensures forall i :: |r| <= i < |fs| ==> fs[i] == ""
    decreases |fs|
  {
    if |fs| == 0 then []
    else if fs[|fs| - 1] == "" then DropTrailingEmpty(fs[..|fs| - 1])
    else fs
  }

  /**
   `s.split(sep)`: the separator-free fields of `s`, without trailing empty
   ones. Joined back, they give `s` minus the run of separators at its end.
   */
  function Split(s: string, sep: char): (fs: seq<string>)
    ensures forall i :: 0 <= i < |fs| ==> sep !in fs[i]
    ensures |fs| == 0 || fs[|fs| - 1] != ""
    ensures var j := Join(fs, sep);
            && |j| <= |s| && s[..|j|] == j
            && forall i :: |j| <= i < |s| ==> s[i] == sep
  {
    SplitShape(s, sep);
    SplitDropsTrailingSeparators(s, sep);
    DropTrailingEmpty(Fields(s, sep))
  }

  /** `fs.join(sep)`. */
  function Join(fs: seq<string>, sep: char): string
    decreases |fs|
  {
    if |fs| == 0 then ""
    else if |fs| == 1 then fs[0]
    else fs[0] + [sep] + Join(fs[1..], sep)
  }

  /** Joining two non-empty lists puts one separator between their joins. */
  lemma {:induction false} JoinAppend(a: seq<string>, b: seq<string>, sep: char)
    requires |a| > 0 && |b| > 0
    ensures Join(a + b, sep) == Join(a, sep) + [sep] + Join(b, sep)
    decreases |a|
  {
    assert (a + b)[0] == a[0];
    if |a| == 1 {
      assert (a + b)[1..] == b;
    } else {
      assert (a + b)[1..] == a[1..] + b;
      JoinAppend(a[1..], b, sep);
    }
  }

  /** A join of empty strings consists of separators only. */
  lemma {:induction false} JoinOfEmpties(fs: seq<string>, sep: char)
    requires forall i :: 0 <= i < |fs| ==> fs[i] == ""
    ensures forall i :: 0 <= i < |Join(fs, sep)| ==> Join(fs, sep)[i] == sep
    decreases |fs|
  {
    if |fs| > 1 {
      JoinOfEmpties(fs[1..], sep);
      assert Join(fs, sep) == [sep] + Join(fs[1..], sep);
    }
  }

  /** A join whose last piece is non-empty ends with that piece's last character. */
  lemma {:induction false} JoinEndsWithLastPiece(fs: seq<string>, sep: char)
    requires |fs| > 0 && fs[|fs| - 1] != ""
    ensures var j, last := Join(fs, sep), fs[|fs| - 1];
            |j| > 0 && j[|j| - 1] == last[|last| - 1]
    decreases |fs|
  {
    if |fs| > 1 {
      JoinEndsWithLastPiece(fs[1..], sep);
    }
  }

  /** Appending empty pieces to a join only appends separators. */
  lemma JoinWithTrailingEmpties(kept: seq<string>, dropped: seq<string>, sep: char, s: string)
    requires forall i :: 0 <= i < |dropped| ==> dropped[i] == ""
    requires s == Join(kept + dropped, sep)
    ensures var j := Join(kept, sep);
            && |j| <= |s| && s[..|j|] == j
            && forall i :: |j| <= i < |s| ==> s[i] == sep
  {
    JoinOfEmpties(dropped, sep);
    if |kept| == 0 {
      assert kept + dropped == dropped;
    } else if |dropped| == 0 {
      assert kept + dropped == kept;
    } else {
      JoinAppend(kept, dropped, sep);
      var j, tail := Join(kept, sep), Join(dropped, sep);
      assert s == j + ([sep] + tail);
      forall i | |j| <= i < |s|
        ensures s[i] == sep
      {
        if i > |j| {
          assert s[i] == tail[i - |j| - 1];
        }
      }
    }
  }

  /** What `Split` keeps holds no separator and does not end in an empty field. */
  lemma SplitShape(s: string, sep: char)
    ensures var kept := DropTrailingEmpty(Fields(s, sep));
            && (forall i :: 0 <= i < |kept| ==> sep !in kept[i])
            && (|kept| == 0 || kept[|kept| - 1] != "")
  {
    var all := Fields(s, sep);
    var kept := DropTrailingEmpty(all);
    assert forall i :: 0 <= i < |kept| ==> kept[i] == all[i];
  }

  /** What `Split` keeps, joined back, is `s` without its trailing separators. */
  lemma SplitDropsTrailingSeparators(s: string, sep: char)
    ensures var j := Join(DropTrailingEmpty(Fields(s, sep)), sep);
            && |j| <= |s| && s[..|j|] == j
            && forall i :: |j| <= i < |s| ==> s[i] == sep
  {
    JoinFields(s, sep);
    DropTrailingEmptyJoin(Fields(s, sep), sep, s);
  }

  /** Dropping the trailing empty pieces of a join only removes separators from its end. */
  lemma DropTrailingEmptyJoin(all: seq<string>, sep: char, s: string)
    requires s == Join(all, sep)
    ensures var j := Join(DropTrailingEmpty(all), sep);
            && |j| <= |s| && s[..|j|] == j
            && forall i :: |j| <= i < |s| ==> s[i] == sep
  {
    var kept := DropTrailingEmpty(all);
    var dropped := all[|kept|..];
    assert all == kept + dropped;
    JoinWithTrailingEmpties(kept, dropped, sep, s);
  }

  /** There is always exactly one more piece than there are separators. */
  lemma {:induction false} FieldsCount(s: string, sep: char)
    ensures |Fields(s, sep)| == multiset(s)[sep] + 1
    decreases |s|
  {
    if |s| > 0 {
      FieldsCount(s[1..], sep);
      assert s == [s[0]] + s[1..];
      assert multiset(s) == multiset{s[0]} + multiset(s[1..]);
    }
  }

  /** Joining the pieces back with the separator gives the original string. */
  lemma {:induction false} JoinFields(s: string, sep: char)
    ensures Join(Fields(s, sep), sep) == s
    decreases |s|
  {
    if |s| > 0 {
      var rest := Fields(s[1..], sep);
      JoinFields(s[1..], sep);
      if s[0] == sep {
        assert Fields(s, sep) == [""] + rest;
        assert ([""] + rest)[1..] == rest;
      } else if |rest| == 1 {
        assert Fields(s, sep) == [[s[0]] + rest[0]];
      } else {
        var fs := Fields(s, sep);
        assert fs == [[s[0]] + rest[0]] + rest[1..];
        assert fs[1..] == rest[1..];
        assert Join(rest, sep) == rest[0] + [sep] + Join(rest[1..], sep);
        assert Join(fs, sep) == [s[0]] + (rest[0] + [sep] + Join(rest[1..], sep));
      }
    }
  }

  /** A separator-free prefix merges into the first piece of what follows it. */
  lemma {:induction false} FieldsOfPrefixed(a: string, b: string, sep: char)
    requires sep !in a
    ensures Fields(a + b, sep) == [a + Fields(b, sep)[0]] + Fields(b, sep)[1..]
    decreases |a|
  {
    var fb := Fields(b, sep);
    if |a| > 0 {
      var s := a + b;
      assert s[0] == a[0] && s[1..] == a[1..] + b;
      FieldsOfPrefixed(a[1..], b, sep);
      var rest := Fields(s[1..], sep);
      assert rest == [a[1..] + fb[0]] + fb[1..];
      assert Fields(s, sep) == [[a[0]] + rest[0]] + rest[1..];
      assert [a[0]] + (a[1..] + fb[0]) == a + fb[0];
    } else {
      assert a + b == b;
      assert a + fb[0] == fb[0];
      assert fb == [fb[0]] + fb[1..];
    }
  }

  /** Splitting a join of separator-free pieces gives back every piece, empty ones included. */
  lemma {:induction false} FieldsJoin(fs: seq<string>, sep: char)
    requires |fs| >= 1
    requires forall i :: 0 <= i < |fs| ==> sep !in fs[i]
    ensures Fields(Join(fs, sep), sep) == fs
    decreases |fs|
  {
    if |fs| == 1 {
      FieldsOfPrefixed(fs[0], "", sep);
      assert fs[0] + "" == fs[0];
    } else {
      var tail := Join(fs[1..], sep);
      FieldsJoin(fs[1..], sep);
      assert Fields([sep] + tail, sep) == [""] + fs[1..] by {
        assert ([sep] + tail)[1..] == tail;
      }
      assert Join(fs, sep) == fs[0] + ([sep] + tail);
      FieldsOfPrefixed(fs[0], [sep] + tail, sep);
      var after := Fields([sep] + tail, sep);
      assert after[0] == "" && after[1..] == fs[1..];
      assert fs[0] + "" == fs[0];
      assert fs == [fs[0]] + fs[1..];
    }
  }

  /**
   `fs.join(sep).split(sep) == fs` whenever no piece contains the separator
   and the last piece (if any) is non-empty.
   */
  lemma SplitJoin(fs: seq<string>, sep: char)
    requires forall i :: 0 <= i < |fs| ==> sep !in fs[i]
    requires |fs| == 0 || fs[|fs| - 1] != ""
    ensures Split(Join(fs, sep), sep) == fs
  {
    if |fs| > 0 {
      FieldsJoin(fs, sep);
    }
  }
}
