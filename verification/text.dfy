/** The string operations the chunk sorter applies to a chunk's content:
    `str::trim`, `str::split(" ")` and `[String]::join(" ")`, on bytes. */
module Text {
  import opened Bytes

  /** Drops leading whitespace. */
  function TrimStart(s: seq<u8>): (r: seq<u8>)
    ensures |r| <= |s| && r == s[|s| - |r|..]
    ensures forall k :: 0 <= k < |s| - |r| ==> IsWhitespace(s[k])
    ensures |r| > 0 ==> !IsWhitespace(r[0])
  {
    if |s| > 0 && IsWhitespace(s[0]) then TrimStart(s[1..]) else s
  }

  /** Drops trailing whitespace. */
  function TrimEnd(s: seq<u8>): (r: seq<u8>)
    ensures |r| <= |s| && r == s[..|r|]
    ensures forall k :: |r| <= k < |s| ==> IsWhitespace(s[k])
    ensures |r| > 0 ==> !IsWhitespace(r[|r| - 1])
  {
    if |s| > 0 && IsWhitespace(s[|s| - 1]) then TrimEnd(s[..|s| - 1]) else s
  }

  /** `str::trim`: the longest infix that neither starts nor ends with
      whitespace; empty exactly when the content is all whitespace. */
  function Trim(s: seq<u8>): (r: seq<u8>)
    ensures |r| > 0 ==> !IsWhitespace(r[0]) && !IsWhitespace(r[|r| - 1])
    ensures |r| == 0 <==> AllWhitespace(s)
    ensures |r| <= |s|
    ensures exists i ::
      (0 <= i <= |s| - |r| && r == s[i..i + |r|] && AllWhitespace(s[..i]) && AllWhitespace(s[i + |r|..]))
  {
    var t := TrimStart(s);
    WhitespaceAround(s, t, TrimEnd(t));
    TrimEnd(t)
  }

  /** An infix `r` reached by dropping a whitespace prefix of `s` (leaving
      `t`) and then a whitespace suffix of `t` has only whitespace around it,
      neither starts nor ends with whitespace, and is empty exactly when `s`
      is all whitespace. */
  lemma WhitespaceAround(s: seq<u8>, t: seq<u8>, r: seq<u8>)
    requires |t| <= |s| && t == s[|s| - |t|..]
    requires forall k :: 0 <= k < |s| - |t| ==> IsWhitespace(s[k])
    requires |r| <= |t| && r == t[..|r|]
    requires forall k :: |r| <= k < |t| ==> IsWhitespace(t[k])
    requires |t| > 0 ==> !IsWhitespace(t[0])
    requires |r| > 0 ==> !IsWhitespace(r[|r| - 1])
    ensures |r| > 0 ==> !IsWhitespace(r[0]) && !IsWhitespace(r[|r| - 1])
    ensures |r| == 0 <==> AllWhitespace(s)
    ensures |r| <= |s|
    ensures exists i ::
      (0 <= i <= |s| - |r| && r == s[i..i + |r|] && AllWhitespace(s[..i]) && AllWhitespace(s[i + |r|..]))
  {
    var i := |s| - |t|;
    var lead, trail := s[..i], s[i + |r|..];
    assert forall k :: 0 <= k < |lead| ==> lead[k] == s[k];
    assert forall k :: 0 <= k < |trail| ==> trail[k] == t[|r| + k];
    assert r == s[i..i + |r|];
    if |r| == 0 {
      if |t| > 0 {
        assert false;
      }
    } else {
      assert r[0] == t[0];
      assert s[i] == r[0];
    }
    assert AllWhitespace(lead) && AllWhitespace(trail);
  }

  predicate AllWhitespace(s: seq<u8>) {
    forall k :: 0 <= k < |s| ==> IsWhitespace(s[k])
  }

  /** `Trim` removes exactly the whitespace padding around content that
      neither starts nor ends with whitespace. */
  lemma TrimPadded(a: seq<u8>, s: seq<u8>, b: seq<u8>)
    requires AllWhitespace(a) && AllWhitespace(b)
    requires |s| > 0 && !IsWhitespace(s[0]) && !IsWhitespace(s[|s| - 1])
    ensures Trim(a + s + b) == s
  {
    TrimStartPadded(a, s + b);
    assert a + s + b == a + (s + b);
    TrimEndPadded(s, b);
  }

  lemma {:induction false} TrimStartPadded(a: seq<u8>, t: seq<u8>)
    requires AllWhitespace(a)
    requires |t| > 0 && !IsWhitespace(t[0])
    ensures TrimStart(a + t) == t
    decreases |a|
  {
    if |a| > 0 {
      assert (a + t)[1..] == a[1..] + t;
      TrimStartPadded(a[1..], t);
    } else {
      assert a + t == t;
    }
  }

  lemma {:induction false} TrimEndPadded(s: seq<u8>, b: seq<u8>)
    requires AllWhitespace(b)
    requires |s| > 0 && !IsWhitespace(s[|s| - 1])
    ensures TrimEnd(s + b) == s
    decreases |b|
  {
    if |b| > 0 {
      assert (s + b)[..|s + b| - 1] == s + b[..|b| - 1];
      TrimEndPadded(s, b[..|b| - 1]);
    } else {
      assert s + b == s;
    }
  }

  /** Content that neither starts nor ends with whitespace is left alone by `Trim`. */
  lemma TrimTrimmed(s: seq<u8>)
    requires |s| > 0 && !IsWhitespace(s[0]) && !IsWhitespace(s[|s| - 1])
    ensures Trim(s) == s
  {
  }

  /** `str::split(" ")`: the fields between single spaces, in order. There is
      always at least one field, so `""` splits into `[""]`. */
  function Split(s: seq<u8>): (fields: seq<seq<u8>>)
    ensures |fields| >= 1
    ensures forall i :: 0 <= i < |fields| ==> SPACE !in fields[i]
    decreases |s|
  {
    if |s| == 0 then [[]]
    else
      var rest := Split(s[1..]);
      if s[0] == SPACE then [[]] + rest
      else [[s[0]] + rest[0]] + rest[1..]
  }

  /** `join(" ")`: the fields with one space between neighbours and none around. */
  function Join(fields: seq<seq<u8>>): seq<u8>
  {
    if |fields| == 0 then []
    else if |fields| == 1 then fields[0]
    else fields[0] + [SPACE] + Join(fields[1..])
  }

  /** Joining the fields of a split restores the content. */
  lemma {:induction false} JoinSplit(s: seq<u8>)
    ensures Join(Split(s)) == s
    decreases |s|
  {
    if |s| > 0 {
      var rest := Split(s[1..]);
      JoinSplit(s[1..]);
      if s[0] == SPACE {
        assert Split(s) == [[]] + rest;
      } else {
        var fs := Split(s);
        assert fs == [[s[0]] + rest[0]] + rest[1..];
        if |rest| == 1 {
          assert Join(fs) == [s[0]] + rest[0];
        } else {
          assert fs[1..] == rest[1..];
          assert Join(rest) == rest[0] + [SPACE] + Join(rest[1..]);
          assert Join(fs) == [s[0]] + rest[0] + [SPACE] + Join(rest[1..]);
        }
      }
    }
  }

  /** Splitting a field with no space, a space and more content gives that
      field followed by the fields of the rest. */
  lemma {:induction false} SplitAfterField(a: seq<u8>, b: seq<u8>)
    requires SPACE !in a
    ensures Split(a + [SPACE] + b) == [a] + Split(b)
    decreases |a|
  {
    if |a| == 0 {
      assert a + [SPACE] + b == [SPACE] + b;
      assert ([SPACE] + b)[1..] == b;
    } else {
      var s := a + [SPACE] + b;
      assert s[1..] == a[1..] + [SPACE] + b;
      SplitAfterField(a[1..], b);
      assert [a[0]] + a[1..] == a;
    }
  }

  /** Splitting space-free fields joined by single spaces gives them back. */
  lemma {:induction false} SplitJoin(fields: seq<seq<u8>>)
    requires |fields| >= 1
    requires forall i :: 0 <= i < |fields| ==> SPACE !in fields[i]
    ensures Split(Join(fields)) == fields
    decreases |fields|
  {
    if |fields| == 1 {
      NoSpaceSplit(fields[0]);
    } else {
      SplitJoin(fields[1..]);
      SplitAfterField(fields[0], Join(fields[1..]));
      assert [fields[0]] + fields[1..] == fields;
    }
  }

  /** Content with no space is a single field. */
  lemma {:induction false} NoSpaceSplit(s: seq<u8>)
    requires SPACE !in s
    ensures Split(s) == [s]
    decreases |s|
  {
    if |s| > 0 {
      assert SPACE !in s[1..] by {
        forall k | 0 <= k < |s[1..]| ensures s[1..][k] != SPACE {
          assert s[1..][k] == s[k + 1];
        }
      }
      NoSpaceSplit(s[1..]);
      assert [s[0]] + s[1..] == s;
    }
  }

  /** Two adjacent spaces produce an empty field, and it is never the first one. */
  lemma {:induction false} DoubleSpaceEmptyField(s: seq<u8>, k: nat)
    requires k + 1 < |s| && s[k] == SPACE && s[k + 1] == SPACE
    ensures [] in Split(s)[1..]
    decreases k
  {
    var rest := Split(s[1..]);
    if k == 0 {
      assert rest == [[]] + Split(s[2..]);
      assert Split(s)[1..] == rest;
    } else {
      DoubleSpaceEmptyField(s[1..], k - 1);
      if s[0] == SPACE {
        assert Split(s)[1..] == rest;
        assert rest == [rest[0]] + rest[1..];
      } else {
        assert Split(s)[1..] == rest[1..];
      }
    }
  }
}
