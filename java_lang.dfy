/**
  The parts of the Java platform that QuerySpec relies on: null as an
  absent value, String.split(":") with its trailing-empty-string rule, and
  java.util.StringJoiner.
 */
module JavaLang {

  /** A Java reference that may be null. */
  datatype Option<+T> = None | Some(value: T)

  /** True when every character of s is a colon (vacuously true of ""). */
  predicate OnlyColons(s: string) {
    forall i :: 0 <= i < |s| ==> s[i] == ':'
  }

  /** True when every part is the empty string. */
  predicate AllEmpty(parts: seq<string>) {
    forall i :: 0 <= i < |parts| ==> parts[i] == ""
  }

  /** n colons in a row. */
  function Colons(n: nat): (r: string)
    ensures |r| == n && OnlyColons(r)
  {
    seq(n, _ => ':')
  }

  /** The strings of parts with sep between neighbours, as String.join and StringJoiner produce it. */
  function Join(parts: seq<string>, sep: string): string
    decreases |parts|
  {
    if |parts| == 0 then ""
    else if |parts| == 1 then parts[0]
    else parts[0] + sep + Join(parts[1..], sep)
  }

  lemma {:induction false} JoinAppend(parts: seq<string>, x: string, sep: string)
    requires |parts| >= 1
    ensures Join(parts + [x], sep) == Join(parts, sep) + sep + x
    decreases |parts|
  {
    if |parts| == 1 {
      assert parts + [x] == [parts[0], x];
      assert [parts[0], x][1..] == [x];
    } else {
      assert (parts + [x])[1..] == parts[1..] + [x];
      JoinAppend(parts[1..], x, sep);
    }
  }

  lemma JoinTwo(a: string, b: string, sep: string)
    ensures Join([a, b], sep) == a + sep + b
  {
  }

  lemma JoinThree(a: string, b: string, c: string, sep: string)
    ensures Join([a, b, c], sep) == a + sep + (b + sep + c)
  {
    assert [a, b, c][1..] == [b, c];
    JoinTwo(b, c, sep);
  }

  /** Join of at least two parts starts with the first part followed by the separator. */
  lemma JoinStartsWithHead(parts: seq<string>, sep: string)
    requires |parts| >= 2
    ensures parts[0] + sep <= Join(parts, sep)
  {
  }

  /** Joining with ":" and then appending empty parts only appends colons. */
  lemma {:induction false} JoinEmptyTail(parts: seq<string>, empties: seq<string>)
    requires |parts| >= 1
    requires AllEmpty(empties)
    ensures Join(parts + empties, ":") == Join(parts, ":") + Colons(|empties|)
    decreases |empties|
  {
    if |empties| == 0 {
      assert parts + empties == parts;
    } else {
      var n := |empties| - 1;
      var front := empties[..n];
      assert empties == front + [""];
      assert parts + empties == (parts + front) + [""];
      JoinEmptyTail(parts, front);
      JoinAppend(parts + front, "", ":");
      assert Colons(n + 1) == Colons(n) + ":";
    }
  }

  // ---------------------------------------------------------------------
  // String.split(":")
  // ---------------------------------------------------------------------

  /**
    The pieces of s between colons, keeping every empty piece: the result
    has one more element than s has colons, and no element holds a colon.
   */
  function Segments(s: string): (r: seq<string>)
    ensures forall i :: 0 <= i < |r| ==> ':' !in r[i]
    decreases |s|
  {
    if |s| == 0 then [""]
    else
      var rest := Segments(s[1..]);
      if s[0] == ':' then [""] + rest
      else [[s[0]] + rest[0]] + rest[1..]
  }

  /** There is one segment more than there are colons. */
  lemma {:induction false} SegmentsCount(s: string)
    ensures |Segments(s)| == multiset(s)[':'] + 1
    decreases |s|
  {
    if |s| > 0 {
      SegmentsCount(s[1..]);
      assert s == [s[0]] + s[1..];
      assert multiset(s) == multiset{s[0]} + multiset(s[1..]);
    }
  }

  /** Joining the segments with ":" gives back the string. */
  lemma {:induction false} JoinSegments(s: string)
    ensures Join(Segments(s), ":") == s
    decreases |s|
  {
    if |s| > 0 {
      var rest := Segments(s[1..]);
      JoinSegments(s[1..]);
      assert s == [s[0]] + s[1..];
      if s[0] == ':' {
        var r := [""] + rest;
        assert r[0] == "" && r[1..] == rest;
        assert Join(r, ":") == "" + ":" + Join(rest, ":");
      } else {
        var r := [[s[0]] + rest[0]] + rest[1..];
        assert r[0] == [s[0]] + rest[0] && r[1..] == rest[1..];
        if |rest| > 1 {
          assert Join(rest, ":") == rest[0] + ":" + Join(rest[1..], ":");
          assert Join(r, ":") == r[0] + ":" + Join(rest[1..], ":");
        } else {
          assert r == [r[0]];
        }
      }
    }
  }

  /** A colon-free prefix is glued onto the first segment of what follows. */
  lemma {:induction false} SegmentsPrepend(x: string, t: string)
    requires ':' !in x
    ensures Segments(x + t) == [x + Segments(t)[0]] + Segments(t)[1..]
    decreases |x|
  {
    var st := Segments(t);
    if |x| == 0 {
      assert x + t == t;
      assert x + st[0] == st[0];
      assert [x + st[0]] + st[1..] == st;
    } else {
      assert x[0] in x;
      assert (x + t)[0] == x[0];
      assert (x + t)[1..] == x[1..] + t;
      assert ':' !in x[1..] by {
        forall i | 0 <= i < |x[1..]| ensures x[1..][i] != ':' {
          assert x[1..][i] == x[i + 1] && x[i + 1] in x;
        }
      }
      SegmentsPrepend(x[1..], t);
      assert [x[0]] + (x[1..] + st[0]) == x + st[0];
    }
  }

  /** A string without colons is a single segment. */
  lemma SegmentsColonFree(x: string)
    requires ':' !in x
    ensures Segments(x) == [x]
  {
    SegmentsPrepend(x, "");
    assert x + "" == x;
  }

  /** Splicing a colon-free piece and a colon in front of y adds exactly one segment. */
  lemma SegmentsSplice(x: string, y: string)
    requires ':' !in x
    ensures Segments(x + ":" + y) == [x] + Segments(y)
  {
    assert x + ":" + y == x + (":" + y);
    SegmentsPrepend(x, ":" + y);
    assert (":" + y)[1..] == y;
    assert Segments(":" + y) == [""] + Segments(y);
    assert x + "" == x;
  }

  /** The inverse of JoinSegments: joining colon-free parts and cutting at colons gives the parts back. */
  lemma {:induction false} SegmentsJoin(parts: seq<string>)
    requires |parts| >= 1
    requires forall i :: 0 <= i < |parts| ==> ':' !in parts[i]
    ensures Segments(Join(parts, ":")) == parts
    decreases |parts|
  {
    if |parts| == 1 {
      SegmentsColonFree(parts[0]);
    } else {
      SegmentsJoin(parts[1..]);
      SegmentsSplice(parts[0], Join(parts[1..], ":"));
    }
  }

  /** Segments are all empty exactly when the string holds nothing but colons. */
  lemma {:induction false} SegmentsAllEmpty(s: string)
    ensures AllEmpty(Segments(s)) <==> OnlyColons(s)
    decreases |s|
  {
    if |s| > 0 {
      var rest := Segments(s[1..]);
      SegmentsAllEmpty(s[1..]);
      assert OnlyColons(s) <==> s[0] == ':' && OnlyColons(s[1..]) by {
        if s[0] == ':' && OnlyColons(s[1..]) {
          forall i | 0 <= i < |s| ensures s[i] == ':' {
            if i > 0 { assert s[i] == s[1..][i - 1]; }
          }
        }
        if OnlyColons(s) {
          forall i | 0 <= i < |s[1..]| ensures s[1..][i] == ':' {
            assert s[1..][i] == s[i + 1];
          }
        }
      }
      if s[0] == ':' {
        var r := [""] + rest;
        assert r == Segments(s);
        assert AllEmpty(r) <==> AllEmpty(rest) by {
          if AllEmpty(rest) {
            forall i | 0 <= i < |r| ensures r[i] == "" {
              if i > 0 { assert r[i] == rest[i - 1]; }
            }
          }
          if AllEmpty(r) {
            forall i | 0 <= i < |rest| ensures rest[i] == "" {
              assert rest[i] == r[i + 1];
            }
          }
        }
      } else {
        assert Segments(s)[0] == [s[0]] + rest[0];
      }
    }
  }

  /**
    parts without its run of trailing empty strings: a prefix of parts
    that ends in a non-empty string, followed in parts only by "".
   */
  function StripTrailingEmpty(parts: seq<string>): (r: seq<string>)
    ensures |r| <= |parts| && r == parts[..|r|]
    ensures forall i :: |r| <= i < |parts| ==> parts[i] == ""
    ensures |r| > 0 ==> r[|r| - 1] != ""
    decreases |parts|
  {
    if |parts| == 0 then []
    else if parts[|parts| - 1] == "" then StripTrailingEmpty(parts[..|parts| - 1])
    else parts
  }

  /** Nothing is left exactly when every part is empty. */
  lemma StripTrailingEmptyNone(parts: seq<string>)
    ensures StripTrailingEmpty(parts) == [] <==> AllEmpty(parts)
  {
  }

  lemma StripTrailingEmptyAppendEmpty(parts: seq<string>)
    ensures StripTrailingEmpty(parts + [""]) == StripTrailingEmpty(parts)
  {
  }

  /** An extra element in front survives whenever something of the rest survives. */
  lemma {:induction false} StripTrailingEmptyPrepend(x: string, parts: seq<string>)
    requires StripTrailingEmpty(parts) != []
    ensures StripTrailingEmpty([x] + parts) == [x] + StripTrailingEmpty(parts)
    decreases |parts|
  {
    var n := |parts|;
    assert ([x] + parts)[n] == parts[n - 1];
    if parts[n - 1] == "" {
      assert ([x] + parts)[..n] == [x] + parts[..n - 1];
      StripTrailingEmptyPrepend(x, parts[..n - 1]);
    }
  }

  /**
    Java's "s".split(":") (limit 0). A string without a colon comes back
    whole (so "" gives [""]); otherwise the segments come back with the
    trailing empty ones removed, and leading or interior empty segments kept.
   */
  function Split(s: string): (r: seq<string>)
    ensures forall i :: 0 <= i < |r| ==> ':' !in r[i]
    ensures ':' !in s ==> r == [s]
    ensures ':' in s ==> |r| <= |Segments(s)| && r == Segments(s)[..|r|]
    ensures ':' in s ==> forall i :: |r| <= i < |Segments(s)| ==> Segments(s)[i] == ""
    ensures ':' in s && |r| > 0 ==> r[|r| - 1] != ""
  {
    if ':' !in s then [s] else StripTrailingEmpty(Segments(s))
  }

  /** No parts at all exactly when s is a non-empty run of colons, such as ":" or "::". */
  lemma SplitEmptyIff(s: string)
    ensures Split(s) == [] <==> s != "" && OnlyColons(s)
  {
    if ':' in s {
      assert s != "";
      assert Split(s) == StripTrailingEmpty(Segments(s));
      StripTrailingEmptyNone(Segments(s));
      SegmentsAllEmpty(s);
    } else if s != "" {
      assert s[0] in s;
    }
  }

  /** A trailing colon is dropped: "a:b:" splits like "a:b" (but ":" does not split like ""). */
  lemma SplitTrailingColon(s: string)
    requires s != ""
    ensures Split(s + ":") == Split(s)
  {
    assert (s + ":")[|s|] == ':';
    var segs := Segments(s);
    JoinSegments(s);
    JoinAppend(segs, "", ":");
    assert s + ":" + "" == s + ":";
    SegmentsJoin(segs + [""]);
    StripTrailingEmptyAppendEmpty(segs);
    if ':' !in s {
      SegmentsColonFree(s);
    }
  }

  /** A leading colon adds a leading empty part, as long as something other than colons follows. */
  lemma SplitLeadingColon(t: string)
    requires !OnlyColons(t)
    ensures Split(":" + t) == [""] + Split(t)
  {
    assert (":" + t)[0] == ':';
    assert (":" + t)[1..] == t;
    assert Segments(":" + t) == [""] + Segments(t);
    SplitEmptyIff(t);
    if ':' !in t {
      SegmentsColonFree(t);
      assert [""] + [t] == ["", t];
    } else {
      StripTrailingEmptyPrepend("", Segments(t));
    }
  }

  /**
    What split keeps reads back as the input up to a run of trailing colons:
    joining the parts with ":" gives a prefix of s, and the rest of s is colons.
   */
  lemma SplitReadsBack(s: string)
    requires Split(s) != []
    ensures Join(Split(s), ":") <= s
    ensures OnlyColons(s[|Join(Split(s), ":")|..])
  {
    var parts := Split(s);
    if ':' in s {
      var segs := Segments(s);
      var tail := segs[|parts|..];
      assert segs == parts + tail;
      assert forall i :: 0 <= i < |tail| ==> tail[i] == segs[|parts| + i];
      JoinSegments(s);
      JoinEmptyTail(parts, tail);
      assert s[|Join(parts, ":")|..] == Colons(|tail|);
    } else {
      assert s[|s|..] == "";
    }
  }

  /** Joining colon-free parts whose last is non-empty and splitting the result gives the parts back. */
  lemma SplitJoin(parts: seq<string>)
    requires |parts| >= 1
    requires forall i :: 0 <= i < |parts| ==> ':' !in parts[i]
    requires |parts| >= 2 ==> parts[|parts| - 1] != ""
    ensures Split(Join(parts, ":")) == parts
  {
    SegmentsJoin(parts);
    if |parts| >= 2 {
      JoinStartsWithHead(parts, ":");
      assert Join(parts, ":")[|parts[0]|] == ':';
    }
  }

  // ---------------------------------------------------------------------
  // java.util.StringJoiner
  // ---------------------------------------------------------------------

  /** A StringJoiner with no prefix, no suffix and the default empty value "". */
  class StringJoiner {
    const delimiter: string
    var elements: seq<string>

    constructor (delimiter: string)
      ensures this.delimiter == delimiter && elements == []
    {
      this.delimiter := delimiter;
      elements := [];
    }

    method Add(s: string)
      modifies this
      ensures elements == old(elements) + [s]
    {
      elements := elements + [s];
    }

    /** The added elements in order, separated by the delimiter. */
    function ToString(): string
      reads this
    {
      Join(elements, delimiter)
    }
  }
}
