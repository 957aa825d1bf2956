/** The textual form of a chunk inside the sorter: parsing its content into
    `i64` values (trim, split on `" "`, parse each field) and serialising the
    values back (`to_string` each, join with `" "`). */
module TokenCodec {
  import opened Wrappers
  import opened Bytes
  import opened Decimal
  import opened Text

  /** Parses each field in order; fails with the first field that is not an `i64`. */
  function ParseFields(fields: seq<seq<u8>>): (r: Result<seq<i64>, seq<u8>>)
    ensures r.Success? <==> forall i :: 0 <= i < |fields| ==> ParseI64(fields[i]).Some?
    ensures r.Success? ==> |r.value| == |fields|
    ensures r.Success? ==> forall i :: 0 <= i < |fields| ==> ParseI64(fields[i]) == Some(r.value[i])
    ensures r.Failure? ==> exists k ::
      (0 <= k < |fields| && r.error == fields[k] && ParseI64(fields[k]).None?
       && forall i :: 0 <= i < k ==> ParseI64(fields[i]).Some?)
  {
    if |fields| == 0 then Success([])
    else
      match ParseI64(fields[0])
      case None => Failure(fields[0])
      case Some(v) =>
        match ParseFields(fields[1..])
        case Failure(e) => Failure(e)
        case Success(vs) => Success([v] + vs)
  }

  /** The content of a chunk as numbers: `trim`, `split(" ")`, `parse::<i64>`. */
  function Parse(content: seq<u8>): (r: Result<seq<i64>, seq<u8>>)
    ensures r.Success? ==> |r.value| >= 1
  {
    ParseFields(Split(Trim(content)))
  }

  /** The decimal text of each value. */
  function Decimals(xs: seq<i64>): (r: seq<seq<u8>>)
    ensures |r| == |xs|
    ensures forall i :: 0 <= i < |xs| ==> r[i] == ToDecimal(xs[i])
  {
    if |xs| == 0 then [] else [ToDecimal(xs[0])] + Decimals(xs[1..])
  }

  /** The values as text: `to_string` each, `join(" ")`. */
  function Serialise(xs: seq<i64>): seq<u8>
  {
    Join(Decimals(xs))
  }

  /** The ends of joined non-empty fields are the ends of the first and last field. */
  lemma {:induction false} JoinEnds(fields: seq<seq<u8>>)
    requires |fields| >= 1
    requires forall i :: 0 <= i < |fields| ==> |fields[i]| > 0
    ensures |Join(fields)| > 0
    ensures Join(fields)[0] == fields[0][0]
    ensures Join(fields)[|Join(fields)| - 1] == fields[|fields| - 1][|fields[|fields| - 1]| - 1]
    decreases |fields|
  {
    if |fields| > 1 {
      var rest := fields[1..];
      assert forall i :: 0 <= i < |rest| ==> rest[i] == fields[i + 1];
      JoinEnds(rest);
      var j := Join(rest);
      var head := fields[0] + [SPACE];
      assert Join(fields) == head + j;
      assert (head + j)[0] == head[0];
      assert (head + j)[|head + j| - 1] == j[|j| - 1];
      assert rest[|rest| - 1] == fields[|fields| - 1];
    }
  }

  /** Serialising a non-empty sequence gives the canonical decimals of its
      values separated by single spaces, with nothing before or after. */
  lemma SerialiseShape(xs: seq<i64>)
    requires |xs| >= 1
    ensures |Serialise(xs)| > 0
    ensures !IsWhitespace(Serialise(xs)[0]) && !IsWhitespace(Serialise(xs)[|Serialise(xs)| - 1])
    ensures Split(Serialise(xs)) == Decimals(xs)
  {
    var ds := Decimals(xs);
    forall i | 0 <= i < |ds| ensures |ds[i]| > 0 && SPACE !in ds[i] {
      ToDecimalShape(xs[i]);
    }
    JoinEnds(ds);
    ToDecimalShape(xs[0]);
    ToDecimalShape(xs[|xs| - 1]);
    SplitJoin(ds);
  }

  /** Serialising nothing gives empty text. */
  lemma SerialiseEmpty()
    ensures Serialise([]) == []
  {
  }

  /** Decimal texts parse back to their values. */
  lemma {:induction false} ParseDecimals(xs: seq<i64>)
    ensures ParseFields(Decimals(xs)) == Success(xs)
    decreases |xs|
  {
    if |xs| > 0 {
      ParseToDecimal(xs[0]);
      ParseDecimals(xs[1..]);
      assert Decimals(xs)[1..] == Decimals(xs[1..]);
      assert [xs[0]] + xs[1..] == xs;
    }
  }

  /** Parsing the serialisation of a non-empty sequence gives it back, also
      with whitespace around it. */
  lemma ParseSerialise(xs: seq<i64>, before: seq<u8>, after: seq<u8>)
    requires |xs| >= 1
    requires AllWhitespace(before) && AllWhitespace(after)
    ensures Parse(before + Serialise(xs) + after) == Success(xs)
  {
    SerialiseShape(xs);
    TrimPadded(before, Serialise(xs), after);
    ParseDecimals(xs);
  }

  /** Empty or all-whitespace content fails to parse: it splits into one empty field. */
  lemma ParseBlankFails(content: seq<u8>)
    requires AllWhitespace(content)
    ensures Parse(content) == Failure([])
  {
  }

  /** An empty field from two adjacent spaces inside the trimmed content makes
      parsing fail. */
  lemma ParseDoubleSpaceFails(content: seq<u8>, k: nat)
    requires k + 1 < |Trim(content)| && Trim(content)[k] == SPACE && Trim(content)[k + 1] == SPACE
    ensures Parse(content).Failure?
  {
    DoubleSpaceEmptyField(Trim(content), k);
    var fields := Split(Trim(content));
    var i :| 1 <= i < |fields| && fields[i] == [];
    assert ParseI64(fields[i]).None?;
  }

  /** A line break between two numbers stays inside one field, which then fails. */
  lemma ParseNewlineFails(content: seq<u8>, k: nat)
    requires 0 < k < |Trim(content)| - 1 && Trim(content)[k] == 0x0A
    ensures Parse(content).Failure?
  {
    var t := Trim(content);
    var fields := Split(t);
    JoinSplit(t);
    if Parse(content).Success? {
      forall i | 0 <= i < |fields| ensures 0x0A !in fields[i] {
        assert ParseI64(fields[i]).Some?;
      }
      JoinNoByte(fields, 0x0A);
      assert false;
    }
  }

  /** Joining fields that lack byte `b` (other than a space) gives text without `b`. */
  lemma {:induction false} JoinNoByte(fields: seq<seq<u8>>, b: u8)
    requires b != SPACE
    requires forall i :: 0 <= i < |fields| ==> b !in fields[i]
    ensures b !in Join(fields)
    decreases |fields|
  {
    if |fields| > 1 {
      JoinNoByte(fields[1..], b);
    }
  }
}
