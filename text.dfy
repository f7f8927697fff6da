/** String helpers: Python's `str.join` and reading a text file line by line. */
module Text {

  /** `sep.join(parts)`. */
  function Join(parts: seq<string>, sep: string): string
  {
    if |parts| == 0 then ""
    else if |parts| == 1 then parts[0]
    else parts[0] + sep + Join(parts[1..], sep)
  }

  /** The total length of the parts. */
  function TotalLength(parts: seq<string>): nat
  {
    if parts == [] then 0 else |parts[0]| + TotalLength(parts[1..])
  }

  /** The joined text holds every part and one separator between each two of them. */
  lemma {:induction false} JoinLength(parts: seq<string>, sep: string)
    ensures parts != [] ==> |Join(parts, sep)| == TotalLength(parts) + (|parts| - 1) * |sep|
    ensures parts == [] ==> Join(parts, sep) == ""
  {
    if |parts| >= 2 {
      JoinLength(parts[1..], sep);
    }
  }

  /** Joining one more part at the end appends the separator and that part. */
  lemma {:induction false} JoinSnoc(parts: seq<string>, sep: string, p: string)
    ensures Join(parts + [p], sep) == if parts == [] then p else Join(parts, sep) + sep + p
  {
    if |parts| == 1 {
      assert (parts + [p])[1..] == [p];
    } else if |parts| >= 2 {
      assert (parts + [p])[1..] == parts[1..] + [p];
      JoinSnoc(parts[1..], sep, p);
    } else {
      assert parts + [p] == [p];
    }
  }

  predicate IsPrefix(p: string, s: string) { |p| <= |s| && s[..|p|] == p }

  /** The joined text starts with the first two parts and the separator between them. */
  lemma JoinStartsWith(parts: seq<string>, sep: string)
    requires |parts| >= 2
    ensures IsPrefix(parts[0] + sep + parts[1], Join(parts, sep))
  {
    var rest := Join(parts[1..], sep);
    if |parts| == 2 {
      assert rest == parts[1];
    } else {
      assert rest == parts[1] + sep + Join(parts[2..], sep);
    }
    var s := Join(parts, sep);
    assert s == parts[0] + sep + rest;
    assert s[..|parts[0] + sep + parts[1]|] == parts[0] + sep + parts[1];
  }

  /** `a < b` on Python strings: the first differing character decides, a proper prefix is smaller. */
  predicate LexLess(a: string, b: string)
  {
    if a == [] then b != []
    else if b == [] then false
    else if a[0] != b[0] then a[0] < b[0]
    else LexLess(a[1..], b[1..])
  }

  lemma {:induction false} LexIrreflexive(a: string)
    ensures !LexLess(a, a)
  {
    if a != [] {
      LexIrreflexive(a[1..]);
    }
  }

  /** Behind prefixes of one length, the prefixes decide, and equal prefixes defer to the rest. */
  lemma {:induction false} LexSplit(x: string, y: string, x': string, y': string)
    requires |x| == |x'|
    ensures LexLess(x + y, x' + y') <==> LexLess(x, x') || (x == x' && LexLess(y, y'))
  {
    if x == [] {
      assert x + y == y && x' + y' == y';
    } else {
      assert (x + y)[0] == x[0] && (x' + y')[0] == x'[0];
      assert (x + y)[1..] == x[1..] + y && (x' + y')[1..] == x'[1..] + y';
      LexSplit(x[1..], y, x'[1..], y');
      if x[0] == x'[0] && x[1..] == x'[1..] {
        assert x == x';
      }
      if x == x' {
        LexIrreflexive(x);
      }
    }
  }

  predicate NoNewline(s: string) { forall i :: 0 <= i < |s| ==> s[i] != '\n' }

  /** A text whose last line is terminated: empty, or ending in a newline. */
  predicate Complete(t: string) { t == [] || t[|t| - 1] == '\n' }

  /** Puts a character in front of the first line, or starts a line with it. */
  function ConsFirst(c: char, ls: seq<string>): seq<string>
  {
    if ls == [] then [[c]] else [[c] + ls[0]] + ls[1..]
  }

  /**
   * The lines a line-oriented reader sees in `t`, without their newline;
   * an unterminated tail counts as a last line, as Python's file iteration yields it.
   */
  function Lines(t: string): seq<string>
  {
    if t == [] then []
    else if t[0] == '\n' then [""] + Lines(t[1..])
    else ConsFirst(t[0], Lines(t[1..]))
  }

  /** Appending a terminated record to a complete text adds exactly that line. */
  lemma {:induction false} LinesAppendRecord(t: string, x: string)
    requires Complete(t) && NoNewline(x)
    ensures Complete(t + x + "\n")
    ensures Lines(t + x + "\n") == Lines(t) + [x]
  {
    var u := t + x + "\n";
    if t == [] {
      assert u == x + "\n";
      LinesOfRecord(x);
    } else {
      assert u[1..] == t[1..] + x + "\n";
      LinesAppendRecord(t[1..], x);
      if t[0] != '\n' {
        LinesNonEmpty(t[1..]);
      }
    }
  }

  /** Each record followed by a newline, in order. */
  function Terminated(xs: seq<string>): string
  {
    if xs == [] then "" else Terminated(xs[..|xs| - 1]) + xs[|xs| - 1] + "\n"
  }

  lemma TerminatedSnoc(xs: seq<string>, x: string)
    ensures Terminated(xs + [x]) == Terminated(xs) + x + "\n"
  {
    assert (xs + [x])[..|xs|] == xs;
  }

  lemma Regroup(t: string, u: string, x: string)
    ensures t + (u + x + "\n") == t + u + x + "\n"
  {
  }

  lemma TerminatedStep(xs: seq<string>, x: string, prev: string, line: string)
    requires Terminated(xs) == prev && line == x + "\n"
    ensures Terminated(xs + [x]) == prev + line
  {
    TerminatedSnoc(xs, x);
  }

  /** Appending terminated records to a complete text adds exactly those lines. */
  lemma {:induction false} LinesAppendRecords(t: string, xs: seq<string>)
    requires Complete(t) && forall i :: 0 <= i < |xs| ==> NoNewline(xs[i])
    ensures Complete(t + Terminated(xs))
    ensures Lines(t + Terminated(xs)) == Lines(t) + xs
  {
    if xs == [] {
      assert t + "" == t;
    } else {
      var init, x := xs[..|xs| - 1], xs[|xs| - 1];
      LinesAppendRecords(t, init);
      var u := t + Terminated(init);
      LinesAppendRecord(u, x);
      Regroup(t, Terminated(init), x);
      assert xs == init + [x];
    }
  }

  /** A single terminated record is read back as one line. */
  lemma {:induction false} LinesOfRecord(x: string)
    requires NoNewline(x)
    ensures Lines(x + "\n") == [x]
  {
    var u := x + "\n";
    if x == [] {
      assert u == "\n";
      assert Lines(u[1..]) == [];
    } else {
      assert u[0] == x[0];
      assert u[1..] == x[1..] + "\n";
      LinesOfRecord(x[1..]);
      assert [x[0]] + x[1..] == x;
    }
  }

  lemma LinesNonEmpty(t: string)
    requires t != []
    ensures Lines(t) != []
  {
  }
}
