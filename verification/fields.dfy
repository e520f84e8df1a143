/** Kotlin's `String.split("|")` with a single delimiter and no limit, which
    keeps empty fields (trailing ones included), and its inverse `Join`. */
module Fields {

  /** The field separator of the wire format. */
  const Delim: char := '|'

  /** True when `s` holds no separator, so that it travels as exactly one field. */
  predicate Clean(s: string) {
    Delim !in s
  }

  /** Number of separators in `s`. */
  function Count(s: string): nat {
    if |s| == 0 then 0 else (if s[0] == Delim then 1 else 0) + Count(s[1..])
  }

  /** The fields of `s`: the maximal separator-free runs between separators.
      The first field is the longest separator-free prefix of `s`. */
  function Split(s: string): (r: seq<string>)
    ensures |r| == Count(s) + 1
    ensures forall i :: 0 <= i < |r| ==> Clean(r[i])
    ensures r[0] <= s
    ensures |r[0]| < |s| ==> s[|r[0]|] == Delim
  {
    if |s| == 0 then [""]
    else
      var rest := Split(s[1..]);
      if s[0] == Delim then [""] + rest
      else [[s[0]] + rest[0]] + rest[1..]
  }

  /** The fields glued back together with one separator between neighbours. */
  function Join(fields: seq<string>): string
    requires |fields| >= 1
  {
    if |fields| == 1 then fields[0] else fields[0] + [Delim] + Join(fields[1..])
  }

  /** The first field of `s`: what a reader of field 1 of `tag|s` sees. */
  function FirstField(s: string): (f: string)
    ensures Clean(f) && f <= s
    ensures |f| < |s| ==> s[|f|] == Delim
  {
    Split(s)[0]
  }

  /** Rejoining the fields of any text gives the text back: splitting loses nothing. */
  lemma {:induction false} JoinSplit(s: string)
    ensures Join(Split(s)) == s
  {
    if |s| > 0 {
      JoinSplit(s[1..]);
      var rest := Split(s[1..]);
      assert s == [s[0]] + s[1..];
      if s[0] == Delim {
        assert ([""] + rest)[1..] == rest;
      } else if |rest| > 1 {
        assert Join(rest) == rest[0] + [Delim] + Join(rest[1..]);
      }
    }
  }

  /** A separator-free text is a single field. */
  lemma {:induction false} SplitClean(a: string)
    requires Clean(a)
    ensures Split(a) == [a]
  {
    if |a| > 0 {
      assert Clean(a[1..]) by {
        forall i | 0 <= i < |a[1..]| ensures a[1..][i] != Delim {
          assert a[1..][i] == a[i + 1];
        }
      }
      SplitClean(a[1..]);
      assert a == [a[0]] + a[1..];
    }
  }

  /** A separator-free field followed by a separator splits off as the first field. */
  lemma {:induction false} SplitCons(a: string, rest: string)
    requires Clean(a)
    ensures Split(a + [Delim] + rest) == [a] + Split(rest)
  {
    var s := a + [Delim] + rest;
    if |a| == 0 {
      assert s == [Delim] + rest;
      assert s[1..] == rest;
    } else {
      var a' := a[1..];
      assert Clean(a') by {
        forall i | 0 <= i < |a'| ensures a'[i] != Delim {
          assert a'[i] == a[i + 1];
        }
      }
      SplitCons(a', rest);
      assert s[0] == a[0];
      assert s[1..] == a' + [Delim] + rest;
      assert [a[0]] + a' == a;
    }
  }

  /** Splitting a join of separator-free fields gives back exactly those fields. */
  lemma {:induction false} SplitJoin(fields: seq<string>)
    requires |fields| >= 1
    requires forall i :: 0 <= i < |fields| ==> Clean(fields[i])
    ensures Split(Join(fields)) == fields
  {
    if |fields| == 1 {
      SplitClean(fields[0]);
    } else {
      SplitJoin(fields[1..]);
      SplitCons(fields[0], Join(fields[1..]));
      assert [fields[0]] + fields[1..] == fields;
    }
  }

  /** The first field of a clean text is the whole text; of any other text, a proper prefix. */
  lemma FirstFieldOfClean(s: string)
    ensures FirstField(s) == s <==> Clean(s)
  {
    if Clean(s) {
      SplitClean(s);
    }
  }

  /** Three separator-free fields followed by a separator split off as the first three fields. */
  lemma SplitThree(a: string, b: string, c: string, rest: string)
    requires Clean(a) && Clean(b) && Clean(c)
    ensures Split(a + [Delim] + (b + [Delim] + (c + [Delim] + rest))) == [a, b, c] + Split(rest)
  {
    var tail := c + [Delim] + rest;
    var payload := b + [Delim] + tail;
    SplitCons(c, rest);
    SplitCons(b, tail);
    SplitCons(a, payload);
    assert [a] + ([b] + ([c] + Split(rest))) == [a, b, c] + Split(rest);
  }
}
