/** Splitting text at a separator character and joining it back: the shape
    every `separated_list1(newline, …)` parser of the puzzles accepts. */
module TextLines {
  import opened Wrappers

  /** `p` is a prefix of `s`. */
  predicate StartsWith(s: string, p: string) {
    |p| <= |s| && s[..|p|] == p
  }

  /** The pieces of `s` between occurrences of `sep`; there is always one
      more piece than separators, and pieces may be empty. */
  function Split(s: string, sep: char): (r: seq<string>)
    ensures |r| >= 1
    ensures forall i :: 0 <= i < |r| ==> sep !in r[i]
    decreases |s|
  {
    if |s| == 0 then [""]
    else if s[0] == sep then [""] + Split(s[1..], sep)
    else
      var rest := Split(s[1..], sep);
      [[s[0]] + rest[0]] + rest[1..]
  }

  /** The pieces, with one `sep` between neighbours. */
  function Join(ps: seq<string>, sep: char): string
    requires |ps| >= 1
    decreases |ps|
  {
    if |ps| == 1 then ps[0] else ps[0] + [sep] + Join(ps[1..], sep)
  }

  /** Joining the pieces gives back the text. */
  lemma {:induction false} JoinSplit(s: string, sep: char)
    ensures Join(Split(s, sep), sep) == s
    decreases |s|
  {
    if |s| > 0 {
      var rest := Split(s[1..], sep);
      JoinSplit(s[1..], sep);
      if s[0] == sep {
        assert Split(s, sep)[1..] == rest;
      } else {
        var r := Split(s, sep);
        if |rest| == 1 {
          assert r == [[s[0]] + rest[0]];
        } else {
          assert r[1..] == rest[1..];
          assert Join(rest, sep) == rest[0] + [sep] + Join(rest[1..], sep);
        }
      }
    }
  }

  /** Splitting a piece free of `sep` that is followed by more text. */
  lemma {:induction false} SplitPrefix(p: string, sep: char, t: string)
    requires sep !in p
    ensures Split(p + [sep] + t, sep) == [p] + Split(t, sep)
    decreases |p|
  {
    if |p| == 0 {
      assert p + [sep] + t == [sep] + t;
      assert ([sep] + t)[1..] == t;
    } else {
      var s := p + [sep] + t;
      assert s[1..] == p[1..] + [sep] + t;
      SplitPrefix(p[1..], sep, t);
      assert [p[0]] + p[1..] == p;
    }
  }

  /** A piece free of `sep` is its own split. */
  lemma {:induction false} SplitPiece(p: string, sep: char)
    requires sep !in p
    ensures Split(p, sep) == [p]
    decreases |p|
  {
    if |p| > 0 {
      SplitPiece(p[1..], sep);
      assert [p[0]] + p[1..] == p;
    }
  }

  /** Splitting undoes joining whenever no piece holds the separator. */
  lemma {:induction false} SplitJoin(ps: seq<string>, sep: char)
    requires |ps| >= 1 && forall i :: 0 <= i < |ps| ==> sep !in ps[i]
    ensures Split(Join(ps, sep), sep) == ps
    decreases |ps|
  {
    if |ps| == 1 {
      SplitPiece(ps[0], sep);
    } else {
      SplitJoin(ps[1..], sep);
      SplitPrefix(ps[0], sep, Join(ps[1..], sep));
    }
  }

  /** One more character at the end either starts a new piece (a separator)
      or extends the last one. */
  lemma {:induction false} SplitSnoc(p: string, c: char, sep: char)
    ensures var r := Split(p, sep);
      Split(p + [c], sep) == if c == sep then r + [""] else r[..|r| - 1] + [r[|r| - 1] + [c]]
  {
    if c == sep { SplitSnocSep(p, sep); } else { SplitSnocOther(p, c, sep); }
  }

  lemma {:induction false} SplitSnocSep(p: string, sep: char)
    ensures Split(p + [sep], sep) == Split(p, sep) + [""]
    decreases |p|
  {
    var q := p + [sep];
    if |p| == 0 {
      assert q[1..] == [];
    } else {
      assert q[0] == p[0] && q[1..] == p[1..] + [sep];
      SplitSnocSep(p[1..], sep);
      var r' := Split(p[1..], sep);
      if p[0] != sep {
        var rest := Split(q[1..], sep);
        assert rest[0] == r'[0] && rest[1..] == r'[1..] + [""];
      }
    }
  }

  lemma {:induction false} SplitSnocOther(p: string, c: char, sep: char)
    requires c != sep
    ensures var r := Split(p, sep);
      Split(p + [c], sep) == r[..|r| - 1] + [r[|r| - 1] + [c]]
    decreases |p|
  {
    var q := p + [c];
    if |p| == 0 {
      assert p == [] && q == [c] && q[1..] == [] && Split([], sep) == [""];
      assert Split(q, sep) == [[c] + ""];
      assert [c] + "" == [c] && "" + [c] == [c];
    } else {
      assert q[0] == p[0] && q[1..] == p[1..] + [c];
      SplitSnocOther(p[1..], c, sep);
      var r' := Split(p[1..], sep);
      var r := Split(p, sep);
      var rest := Split(q[1..], sep);
      var k := |r'|;
      assert rest == r'[..k - 1] + [r'[k - 1] + [c]];
      if p[0] == sep {
        assert Split(q, sep) == [""] + rest;
        assert r == [""] + r';
        assert r[..|r| - 1] == [""] + r'[..k - 1] && r[|r| - 1] == r'[k - 1];
      } else if k == 1 {
        assert Split(q, sep) == [[p[0]] + rest[0]];
        assert [p[0]] + (r'[0] + [c]) == ([p[0]] + r'[0]) + [c];
      } else {
        assert Split(q, sep) == [[p[0]] + rest[0]] + rest[1..];
        assert rest[0] == r'[0];
        assert rest[1..] == r'[1..][..k - 2] + [r'[k - 1] + [c]];
      }
    }
  }

  /** There is one piece more than there are separators. */
  lemma {:induction false} SplitCount(s: string, sep: char)
    ensures |Split(s, sep)| == multiset(s)[sep] + 1
    decreases |s|
  {
    if |s| > 0 {
      SplitCount(s[1..], sep);
      assert s == [s[0]] + s[1..];
    }
  }

  /** `char::to_digit(10)`. */
  function Digit(c: char): (r: Option<nat>)
    ensures r.Some? <==> '0' <= c <= '9'
    ensures r.Some? ==> r.value < 10 && r.value == c as int - '0' as int
  {
    if '0' <= c <= '9' then Some(c as int - '0' as int) else None
  }

  /** `str::lines`: the pieces between newlines, where a newline that ends
      the text does not start another line (so the empty text has none). */
  function Lines(s: string): (r: seq<string>)
    ensures forall i :: 0 <= i < |r| ==> '\n' !in r[i]
    ensures |r| == multiset(s)['\n'] + (if |s| == 0 || s[|s| - 1] == '\n' then 0 else 1)
  {
    var ps := Split(s, '\n');
    SplitCount(s, '\n');
    if |s| == 0 || s[|s| - 1] == '\n' then ps[..|ps| - 1] else ps
  }

  /** Lines written out, each followed by a newline, read back as the same
      lines. */
  lemma {:induction false} LinesJoin(ps: seq<string>)
    requires |ps| >= 1 && forall i :: 0 <= i < |ps| ==> '\n' !in ps[i]
    ensures Lines(Join(ps, '\n') + "\n") == ps
  {
    SplitJoin(ps, '\n');
    SplitSnocSep(Join(ps, '\n'), '\n');
  }

  /** Joining splits at any piece boundary. */
  lemma {:induction false} JoinAt(ps: seq<string>, sep: char, y: nat)
    requires 0 < y < |ps|
    ensures Join(ps, sep) == Join(ps[..y], sep) + [sep] + Join(ps[y..], sep)
    decreases y
  {
    if y > 1 {
      JoinAt(ps[1..], sep, y - 1);
      assert ps[1..][..y - 1] == ps[..y][1..];
      assert ps[1..][y - 1..] == ps[y..];
    }
  }

  /** The text starts with the first piece, followed by a separator when
      more pieces come. */
  lemma {:induction false} JoinHead(ps: seq<string>, sep: char)
    requires |ps| >= 1
    ensures |Join(ps, sep)| >= |ps[0]| && Join(ps, sep)[..|ps[0]|] == ps[0]
    ensures |ps| > 1 ==> |Join(ps, sep)| > |ps[0]| && Join(ps, sep)[|ps[0]|] == sep
  {
  }

  /** Pieces of one width `w` take `w + 1` characters each, less the
      missing last separator. */
  lemma {:induction false} JoinWidth(ps: seq<string>, sep: char, w: nat)
    requires |ps| >= 1 && forall i :: 0 <= i < |ps| ==> |ps[i]| == w
    ensures |Join(ps, sep)| == |ps| * (w + 1) - 1
    decreases |ps|
  {
    if |ps| > 1 {
      JoinWidth(ps[1..], sep, w);
    }
  }

  /** A character in no piece, other than the separator, is not in the
      text. */
  lemma {:induction false} JoinAvoids(ps: seq<string>, sep: char, c: char)
    requires |ps| >= 1 && c != sep && forall i :: 0 <= i < |ps| ==> c !in ps[i]
    ensures c !in Join(ps, sep)
    decreases |ps|
  {
    if |ps| > 1 {
      JoinAvoids(ps[1..], sep, c);
    }
  }

  /** The text holds one separator fewer than there are pieces. */
  lemma {:induction false} JoinCount(ps: seq<string>, sep: char)
    requires |ps| >= 1 && forall i :: 0 <= i < |ps| ==> sep !in ps[i]
    ensures multiset(Join(ps, sep))[sep] == |ps| - 1
  {
    SplitJoin(ps, sep);
    SplitCount(Join(ps, sep), sep);
  }
}
