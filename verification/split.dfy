/** Ruby's String#split with a one-character, non-blank separator string, as
    used by the option procs of the check (`period.split('-')`). */
module Splitting {

  /** Every piece of `s` between occurrences of `sep`, empty pieces included. */
  function Fields(s: string, sep: char): (r: seq<string>)
    ensures |r| >= 1
    ensures forall i :: 0 <= i < |r| ==> sep !in r[i]
    decreases |s|
  {
    if |s| == 0 then [""]
    else
      var rest := Fields(s[1..], sep);
      if s[0] == sep then [""] + rest
      else [[s[0]] + rest[0]] + rest[1..]
  }

  /** The pieces glued back together with `sep` between neighbours. */
  function Join(parts: seq<string>, sep: char): string
  {
    if |parts| == 0 then ""
    else if |parts| == 1 then parts[0]
    else parts[0] + [sep] + Join(parts[1..], sep)
  }

  /** Fields loses nothing: joining the fields gives back the string. */
  lemma {:induction false} JoinFields(s: string, sep: char)
    ensures Join(Fields(s, sep), sep) == s
    decreases |s|
  {
    if |s| > 0 {
      var rest := Fields(s[1..], sep);
      JoinFields(s[1..], sep);
      if s[0] == sep {
        assert ([""] + rest)[1..] == rest;
      } else {
        var f := [[s[0]] + rest[0]] + rest[1..];
        assert f[1..] == rest[1..];
        if |rest| > 1 {
          assert Join(rest, sep) == rest[0] + [sep] + Join(rest[1..], sep);
        }
      }
    }
  }

  /** Fields recovers the parts of any join of separator-free parts. */
  lemma {:induction false} FieldsJoin(parts: seq<string>, sep: char)
    requires |parts| >= 1
    requires forall i :: 0 <= i < |parts| ==> sep !in parts[i]
    ensures Fields(Join(parts, sep), sep) == parts
    decreases |parts|, |parts[0]|
  {
    var p := parts[0];
    if |p| == 0 {
      if |parts| > 1 {
        var tail := parts[1..];
        FieldsJoin(tail, sep);
        var s := Join(parts, sep);
        assert s == [sep] + Join(tail, sep);
        assert s[1..] == Join(tail, sep);
      }
    } else {
      var parts' := [p[1..]] + parts[1..];
      assert sep !in parts'[0] by {
        assert forall c :: c in p[1..] ==> c in p;
      }
      FieldsJoin(parts', sep);
      var s := Join(parts, sep);
      if |parts| == 1 {
        assert s[1..] == Join(parts', sep);
      } else {
        assert s == [p[0]] + (p[1..] + [sep] + Join(parts[1..], sep));
        assert parts'[1..] == parts[1..];
        assert s[1..] == Join(parts', sep);
      }
      assert s[0] == p[0] && p[0] != sep;
      assert p == [p[0]] + parts'[0];
      assert parts == [p] + parts'[1..];
    }
  }

  /** `r` with its trailing empty strings removed. */
  function DropTrailingEmpty(r: seq<string>): (k: seq<string>)
    ensures |k| <= |r| && k == r[..|k|]
    ensures forall i :: |k| <= i < |r| ==> r[i] == ""
    ensures |k| == 0 || k[|k| - 1] != ""
  {
    if |r| > 0 && r[|r| - 1] == "" then DropTrailingEmpty(r[..|r| - 1]) else r
  }

  /** String#split with a one-character separator: the fields of `s` with
      trailing empty fields removed (so "" and "---" split to []). */
  function Split(s: string, sep: char): (r: seq<string>)
    requires sep != ' '
    ensures forall i :: 0 <= i < |r| ==> sep !in r[i]
    ensures |r| == 0 || r[|r| - 1] != ""
    ensures |r| <= |Fields(s, sep)| && r == Fields(s, sep)[..|r|]
    ensures forall i :: |r| <= i < |Fields(s, sep)| ==> Fields(s, sep)[i] == ""
  {
    DropTrailingEmpty(Fields(s, sep))
  }

  /** Join(p + [x]) puts one separator between Join(p) and x. */
  lemma {:induction false} JoinSnoc(p: seq<string>, x: string, sep: char)
    requires |p| >= 1
    ensures Join(p + [x], sep) == Join(p, sep) + [sep] + x
    decreases |p|
  {
    if |p| > 1 {
      JoinSnoc(p[1..], x, sep);
      assert (p + [x])[1..] == p[1..] + [x];
    } else {
      assert (p + [x])[1..] == [x];
    }
  }

  /** `s` is `prefix` followed by nothing but separators. */
  predicate PaddedWith(s: string, prefix: string, sep: char)
  {
    && |prefix| <= |s|
    && s[..|prefix|] == prefix
    && forall i :: |prefix| <= i < |s| ==> s[i] == sep
  }

  /** One more separator keeps the padding. */
  lemma PaddedWithOneMore(s: string, prefix: string, sep: char)
    requires PaddedWith(s, prefix, sep)
    ensures PaddedWith(s + [sep], prefix, sep)
  {
    assert (s + [sep])[..|prefix|] == s[..|prefix|];
  }

  /** Dropping trailing empty pieces removes only a tail of separators from
      the join. */
  lemma {:induction false} JoinDropTrailingEmpty(r: seq<string>, sep: char)
    ensures PaddedWith(Join(r, sep), Join(DropTrailingEmpty(r), sep), sep)
    decreases |r|
  {
    var kept := Join(DropTrailingEmpty(r), sep);
    if |r| > 0 && r[|r| - 1] == "" {
      var front := r[..|r| - 1];
      assert r == front + [""];
      assert DropTrailingEmpty(r) == DropTrailingEmpty(front);
      if |front| >= 1 {
        JoinDropTrailingEmpty(front, sep);
        JoinSnoc(front, "", sep);
        assert Join(r, sep) == Join(front, sep) + [sep];
        PaddedWithOneMore(Join(front, sep), kept, sep);
      } else {
        assert Join(r, sep) == "" && kept == "";
      }
    } else {
      assert Join(r, sep)[..|kept|] == kept;
    }
  }

  /** Joining the pieces of Split gives the string back up to a tail of
      separators, which Split drops. */
  lemma JoinSplit(s: string, sep: char)
    requires sep != ' '
    ensures PaddedWith(s, Join(Split(s, sep), sep), sep)
  {
    JoinFields(s, sep);
    JoinDropTrailingEmpty(Fields(s, sep), sep);
  }

  /** Split undoes Join for separator-free pieces whose last piece is not
      empty (Ruby drops trailing empty pieces, so only those come back). */
  lemma SplitJoin(parts: seq<string>, sep: char)
    requires sep != ' '
    requires forall i :: 0 <= i < |parts| ==> sep !in parts[i]
    requires |parts| == 0 || parts[|parts| - 1] != ""
    ensures Split(Join(parts, sep), sep) == parts
  {
    if |parts| > 0 {
      FieldsJoin(parts, sep);
    }
  }

  /** `s` has a separator somewhere before a character that is not one. */
  predicate HasInnerSeparator(s: string, sep: char)
  {
    exists i, j :: 0 <= i < j < |s| && s[i] == sep && s[j] != sep
  }

  /** Split yields at least two pieces exactly when a separator is followed,
      somewhere later, by a character other than the separator. */
  lemma SplitInTwo(s: string, sep: char)
    requires sep != ' '
    ensures |Split(s, sep)| >= 2 <==> HasInnerSeparator(s, sep)
  {
    var f := Fields(s, sep);
    var k := Split(s, sep);
    if |k| >= 2 {
      assert k[|k| - 1] == f[|k| - 1];
      var i, j := FieldWitness(s, sep, |k| - 1);
    }
    if HasInnerSeparator(s, sep) {
      var i, j :| 0 <= i < j < |s| && s[i] == sep && s[j] != sep;
      var m := PositionWitness(s, sep, i, j);
      assert m < |k|;
    }
  }

  /** A separator followed later by a non-separator yields a non-empty field
      after the first. */
  lemma {:induction false} PositionWitness(s: string, sep: char, i: int, j: int) returns (m: int)
    requires 0 <= i < j < |s| && s[i] == sep && s[j] != sep
    ensures 1 <= m < |Fields(s, sep)| && Fields(s, sep)[m] != ""
    decreases |s|
  {
    var rest := Fields(s[1..], sep);
    assert s[1..][j - 1] == s[j];
    if s[0] == sep {
      if i == 0 {
        var m' := NonEmptyFieldOf(s[1..], sep, j - 1);
        m := m' + 1;
      } else {
        assert s[1..][i - 1] == s[i];
        var m' := PositionWitness(s[1..], sep, i - 1, j - 1);
        m := m' + 1;
      }
      assert Fields(s, sep)[m] == rest[m - 1];
    } else {
      assert s[1..][i - 1] == s[i];
      m := PositionWitness(s[1..], sep, i - 1, j - 1);
      assert Fields(s, sep)[m] == rest[m];
    }
  }

  /** A non-empty field after the first comes from a separator followed later
      by a non-separator. */
  lemma {:induction false} FieldWitness(s: string, sep: char, m: int) returns (i: int, j: int)
    requires 1 <= m < |Fields(s, sep)| && Fields(s, sep)[m] != ""
    ensures 0 <= i < j < |s| && s[i] == sep && s[j] != sep
    decreases |s|
  {
    assert |s| > 0;
    var rest := Fields(s[1..], sep);
    if s[0] == sep {
      assert rest[m - 1] == Fields(s, sep)[m];
      var j' := NonSeparatorIn(s[1..], sep, m - 1);
      i, j := 0, j' + 1;
    } else {
      assert rest[m] == Fields(s, sep)[m];
      var i', j' := FieldWitness(s[1..], sep, m);
      i, j := i' + 1, j' + 1;
      assert s[i] == s[1..][i'] && s[j] == s[1..][j'];
    }
  }

  /** A non-separator character lies in a non-empty field. */
  lemma {:induction false} NonEmptyFieldOf(s: string, sep: char, j: int) returns (m: int)
    requires 0 <= j < |s| && s[j] != sep
    ensures 0 <= m < |Fields(s, sep)| && Fields(s, sep)[m] != ""
    decreases |s|
  {
    var rest := Fields(s[1..], sep);
    if s[0] == sep {
      assert s[1..][j - 1] == s[j];
      var m' := NonEmptyFieldOf(s[1..], sep, j - 1);
      m := m' + 1;
      assert Fields(s, sep)[m] == rest[m'];
    } else {
      m := 0;
    }
  }

  /** A non-empty field holds a non-separator character of the string. */
  lemma {:induction false} NonSeparatorIn(s: string, sep: char, m: int) returns (j: int)
    requires 0 <= m < |Fields(s, sep)| && Fields(s, sep)[m] != ""
    ensures 0 <= j < |s| && s[j] != sep
    decreases |s|
  {
    assert |s| > 0;
    if s[0] == sep {
      var rest := Fields(s[1..], sep);
      assert m >= 1 && rest[m - 1] == Fields(s, sep)[m];
      var j' := NonSeparatorIn(s[1..], sep, m - 1);
      j := j' + 1;
      assert s[j] == s[1..][j'];
    } else {
      j := 0;
    }
  }
}
