/**
 * The caret-delimited line format of `.plist` catalogs and of remote
 * catalogs: one record per line, `type^name^text^introduction`.
 */
module LineFormat {
  import opened Wrappers
  import Text

  const Caret: char := '^'

  /** One decoded catalog line. */
  datatype Record = Record(typeName: string, name: string, text: string, introduction: string)

  function Fields(r: Record): seq<string>
  {
    [r.typeName, r.name, r.text, r.introduction]
  }

  /**
   * A line is stripped and split on `^`; it yields a record exactly when that
   * gives four fields, i.e. when the stripped line holds exactly three carets.
   * Every other line is skipped without complaint.
   */
  function DecodeLine(line: string): (r: Option<Record>)
    ensures r.Some? <==> Text.Occurrences(Text.Strip(line), Caret) == 3
    ensures r.Some? ==> Text.Join(Fields(r.value), Caret) == Text.Strip(line)
    ensures r.Some? ==> forall f :: f in Fields(r.value) ==> Caret !in f
  {
    var fields := Text.Split(Text.Strip(line), Caret);
    Text.JoinSplit(Text.Strip(line), Caret);
    if |fields| == 4 then
      var rec := Record(fields[0], fields[1], fields[2], fields[3]);
      assert Fields(rec) == fields;
      Some(rec)
    else None
  }

  /** `f` applied to every element, in order. */
  function MapSeq<A, B>(f: A -> B, xs: seq<A>): (ys: seq<B>)
    ensures |ys| == |xs|
    ensures forall i :: 0 <= i < |xs| ==> ys[i] == f(xs[i])
  {
    if |xs| == 0 then [] else [f(xs[0])] + MapSeq(f, xs[1..])
  }

  lemma MapSeqAppend<A, B>(f: A -> B, a: seq<A>, b: seq<A>)
    ensures MapSeq(f, a + b) == MapSeq(f, a) + MapSeq(f, b)
  {
  }

  /** The values present in a sequence of options, in order. */
  function Present<T>(xs: seq<Option<T>>): (r: seq<T>)
    ensures |r| <= |xs|
  {
    if |xs| == 0 then []
    else (if xs[0].Some? then [xs[0].value] else []) + Present(xs[1..])
  }

  lemma {:induction false} PresentAppend<T>(a: seq<Option<T>>, b: seq<Option<T>>)
    ensures Present(a + b) == Present(a) + Present(b)
  {
    if |a| > 0 {
      assert (a + b)[0] == a[0];
      assert (a + b)[1..] == a[1..] + b;
      PresentAppend(a[1..], b);
    } else {
      assert a + b == b;
    }
  }

  /** The records of a file, in line order, with the malformed lines dropped. */
  function DecodeAll(lines: seq<string>): (records: seq<Record>)
    ensures |records| <= |lines|
  {
    Present(MapSeq(DecodeLine, lines))
  }

  /** Decoding a file decodes its parts independently. */
  lemma DecodeAllAppend(a: seq<string>, b: seq<string>)
    ensures DecodeAll(a + b) == DecodeAll(a) + DecodeAll(b)
  {
    MapSeqAppend(DecodeLine, a, b);
    PresentAppend(MapSeq(DecodeLine, a), MapSeq(DecodeLine, b));
  }

  /** A line without exactly four fields contributes nothing: removing it changes no record. */
  lemma MalformedLineSkipped(a: seq<string>, bad: string, b: seq<string>)
    requires Text.Occurrences(Text.Strip(bad), Caret) != 3
    ensures DecodeAll(a + [bad] + b) == DecodeAll(a + b)
  {
    var none := DecodeLine(bad);
    assert none.None?;
    assert DecodeAll([bad]) == [] by {
      assert MapSeq(DecodeLine, [bad]) == [none];
      assert Present([none]) == [];
    }
    DecodeAllAppend(a + [bad], b);
    DecodeAllAppend(a, [bad]);
    DecodeAllAppend(a, b);
  }

  /**
   * The records a line can carry through a decode: no field holds a caret,
   * the type does not start and the introduction does not end with whitespace.
   */
  predicate Encodable(r: Record)
  {
    && (forall f :: f in Fields(r) ==> Caret !in f)
    && (r.typeName == [] || !Text.IsSpace(r.typeName[0]))
    && (r.introduction == [] || !Text.IsSpace(r.introduction[|r.introduction| - 1]))
  }

  /** Writes a record as one line; the inverse of `DecodeLine` on encodable records. */
  function EncodeLine(r: Record): (line: string)
    ensures |line| >= 3
  {
    Text.Join(Fields(r), Caret)
  }

  /** Round trip: an encodable record survives being written and read back. */
  lemma EncodeDecode(r: Record)
    requires Encodable(r)
    ensures DecodeLine(EncodeLine(r)) == Some(r)
  {
    var line := EncodeLine(r);
    assert Fields(r)[1..][1..][1..] == [r.introduction];
    var t := Text.Join(Fields(r)[1..], Caret);
    assert line == r.typeName + [Caret] + t;
    assert line[0] == (if r.typeName == [] then Caret else r.typeName[0]);
    assert Text.Join([r.text, r.introduction], Caret) == r.text + [Caret] + r.introduction;
    assert Text.Join([r.name, r.text, r.introduction], Caret)
        == r.name + [Caret] + (r.text + [Caret] + r.introduction);
    assert line == (r.typeName + [Caret] + r.name + [Caret] + r.text + [Caret]) + r.introduction;
    assert line[|line| - 1] == (if r.introduction == [] then Caret else r.introduction[|r.introduction| - 1]);
    Text.StripTrimmed(line);
    Text.SplitJoin(Fields(r), Caret);
  }

  /** Decoding the lines written for encodable records gives back exactly those records. */
  lemma {:induction false} EncodeDecodeAll(records: seq<Record>)
    requires forall i :: 0 <= i < |records| ==> Encodable(records[i])
    ensures DecodeAll(seq(|records|, i requires 0 <= i < |records| => EncodeLine(records[i]))) == records
  {
    var lines := seq(|records|, i requires 0 <= i < |records| => EncodeLine(records[i]));
    var decoded := MapSeq(DecodeLine, lines);
    forall i | 0 <= i < |records|
      ensures decoded[i] == Some(records[i])
    {
      EncodeDecode(records[i]);
    }
    PresentAll(decoded, records);
  }

  lemma {:induction false} PresentAll<T>(xs: seq<Option<T>>, ys: seq<T>)
    requires |xs| == |ys|
    requires forall i :: 0 <= i < |xs| ==> xs[i] == Some(ys[i])
    ensures Present(xs) == ys
  {
    if |xs| > 0 {
      PresentAll(xs[1..], ys[1..]);
      assert ys == [ys[0]] + ys[1..];
    }
  }
}
