/** HttpHeaderDecoder: the strict header-block decoder.

    The raw text is cut at CRLF, with nothing stripped and no line skipped, and every
    line is read with the per-line algorithm it shares with HttpHeaderConverter.decode. */
module HttpHeaderDecoder {
  import opened Wrappers
  import opened JavaStrings
  import opened HeaderLines
  import Converter = HttpHeaderConverter

  /** HttpHeaderDecoder.decode.  The raw CRLF lines, a lone CR inside a line included, are
      read as they are: the text fails exactly when one of them has fewer than two tokens,
      and otherwise every name holds the values of all its lines, in line order.  The
      empty text is one empty line, which has no value to read. */
  function Decode(headerString: string): (r: Result<HeaderMap, DecodeError>)
    ensures r.Success? <==> AllParse(Split(headerString, Crlf))
    ensures r.Failure? ==> r.error.IndexOutOfBounds?
    ensures r.Success? ==> r.value.Keys == Names(Entries(Split(headerString, Crlf)))
    ensures r.Success? ==>
              forall k :: Lookup(r.value, k) == ValuesOf(Entries(Split(headerString, Crlf)), k)
    ensures headerString == "" ==> r == Failure(IndexOutOfBounds(1, 1))
  {
    ParseLineWithoutColon("");
    DecodeLinesCollects(Split(headerString, Crlf));
    DecodeLines(Split(headerString, Crlf), map[])
  }

  /** What a block decodes to, in terms of its lines: it fails exactly when some line has
      fewer than two tokens, and otherwise every name holds the values of all its lines,
      in line order. */
  lemma {:induction false} DecodeCollects(lines: seq<string>)
    requires |lines| >= 1 && (|lines| == 1 || lines[|lines| - 1] != "")
    requires forall i | 0 <= i < |lines| :: '\r' !in lines[i]
    ensures Decode(Join(lines, Crlf)).Success? <==> AllParse(lines)
    ensures Decode(Join(lines, Crlf)).Failure? ==> Decode(Join(lines, Crlf)).error.IndexOutOfBounds?
    ensures AllParse(lines) ==>
              && Decode(Join(lines, Crlf)).value.Keys == Names(Entries(lines))
              && forall k :: Lookup(Decode(Join(lines, Crlf)).value, k) == ValuesOf(Entries(lines), k)
  {
    SplitJoin(lines, Crlf);
    assert Decode(Join(lines, Crlf)) == DecodeLines(lines, map[]);
    DecodeLinesCollects(lines);
  }

  /** A line without a colon anywhere in the block, a blank line included, makes the
      decoder fail. */
  lemma {:induction false} LineWithoutColonFails(lines: seq<string>, i: nat)
    requires |lines| >= 1 && (|lines| == 1 || lines[|lines| - 1] != "")
    requires forall j | 0 <= j < |lines| :: '\r' !in lines[j]
    requires i < |lines| && ':' !in lines[i]
    ensures Decode(Join(lines, Crlf)).Failure?
    ensures Decode(Join(lines, Crlf)).error.IndexOutOfBounds?
  {
    ParseLineWithoutColon(lines[i]);
    DecodeCollects(lines);
  }

  /** Any text one of whose CRLF lines has no colon, a blank line included, fails. */
  lemma {:induction false} TextLineWithoutColonFails(headerString: string, i: nat)
    requires i < |Split(headerString, Crlf)| && ':' !in Split(headerString, Crlf)[i]
    ensures Decode(headerString).Failure?
    ensures Decode(headerString).error.IndexOutOfBounds?
  {
    ParseLineWithoutColon(Split(headerString, Crlf)[i]);
  }

  /** On a block with no whitespace at either end and no blank or NUL line, the strict
      decoder and the tolerant one give the same result, failures included. */
  lemma {:induction false} AgreesWithConverter(s: string)
    requires IsTrimmed(s)
    requires forall i | 0 <= i < |Split(s, Crlf)| :: !Converter.Ignorable(Split(s, Crlf)[i])
    ensures Decode(s) == Converter.Decode(s)
  {
    assert "" + s + "" == s;
    StripUnique("", s, "");
    Converter.KeptLinesKeepsAll(Split(s, Crlf));
  }

  /** Without those conditions they part ways: the empty text is the empty map to the
      tolerant decoder and a failure to the strict one. */
  lemma EmptyTextDisagrees()
    ensures Decode("").Failure?
    ensures Converter.Decode("") == Success(map[])
  {
  }

  // ---------------------------------------------------------------------------
  // reading what the converter writes

  /** Every entry line with one blank after it. */
  function Spaced(lines: seq<string>): (r: seq<string>)
    ensures |r| == |lines|
    ensures forall i | 0 <= i < |lines| :: r[i] == lines[i] + " "
  {
    seq(|lines|, i requires 0 <= i < |lines| => lines[i] + " ")
  }

  /** A block the converter writes for a non-empty map is its entry lines, each followed
      by a blank, joined with CRLF, and two empty lines. */
  lemma {:induction false} EncodedLines(lines: seq<string>)
    requires |lines| >= 1
    ensures Join(lines, Converter.EntrySeparator) + Converter.Terminator
         == Join(Spaced(lines) + ["", ""], Crlf)
    decreases |lines|
  {
    JoinAppendEmpty(Spaced(lines));
    SpacedJoin(lines);
  }

  lemma {:induction false} JoinAppendEmpty(parts: seq<string>)
    requires |parts| >= 1
    ensures Join(parts + ["", ""], Crlf) == Join(parts, Crlf) + Crlf + Crlf
  {
    JoinAppend(parts, ["", ""], Crlf);
    assert Join(["", ""], Crlf) == "" + Crlf + Join([""], Crlf);
  }

  lemma {:induction false} SpacedJoin(lines: seq<string>)
    requires |lines| >= 1
    ensures Join(lines, Converter.EntrySeparator) + " " == Join(Spaced(lines), Crlf)
    decreases |lines|
  {
    if |lines| > 1 {
      SpacedJoin(lines[1..]);
      assert Spaced(lines)[1..] == Spaced(lines[1..]);
      calc {
        Join(lines, Converter.EntrySeparator) + " ";
        lines[0] + Converter.EntrySeparator + (Join(lines[1..], Converter.EntrySeparator) + " ");
        (lines[0] + " ") + Crlf + Join(Spaced(lines[1..]), Crlf);
      }
    }
  }

  /** The spaced entry lines of a map: none holds a CR, the last is not empty, and each
      reads back as its entry. */
  lemma {:induction false} SpacedEntryLines(order: seq<string>, m: HeaderMap)
    requires forall k | 0 <= k < |order| :: order[k] in m
    requires Converter.Encodable(m) && |order| >= 1
    ensures forall i | 0 <= i < |order| :: '\r' !in Spaced(Converter.EntryLines(order, m))[i]
    ensures Spaced(Converter.EntryLines(order, m))[|order| - 1] != ""
    ensures AllParse(Spaced(Converter.EntryLines(order, m)))
    ensures Entries(Spaced(Converter.EntryLines(order, m))) == Converter.MapEntries(order, m)
  {
    var spaced := Spaced(Converter.EntryLines(order, m));
    forall i | 0 <= i < |order|
      ensures '\r' !in spaced[i]
      ensures ParseLine(spaced[i]) == Success((order[i], m[order[i]]))
    {
      var key := order[i];
      Converter.RenderedEntryShape(key, m[key]);
      assert IsBlank(" ") by {
        assert " "[0] == ' ';
      }
      ParseRenderedLine(key, m[key], " ");
    }
  }

  /** Cutting lines joined with " \r\n" and terminated with " \r\n\r\n" at CRLF gives
      the lines, each with its blank. */
  lemma {:induction false} SplitSpacedBlock(lines: seq<string>)
    requires |lines| >= 1
    requires forall i | 0 <= i < |lines| :: '\r' !in lines[i]
    ensures Split(Join(lines, Converter.EntrySeparator) + Converter.Terminator, Crlf) == Spaced(lines)
  {
    var spaced := Spaced(lines);
    EncodedLines(lines);
    assert forall i | 0 <= i < |spaced| :: '\r' !in spaced[i] by {
      forall i | 0 <= i < |spaced|
        ensures '\r' !in spaced[i]
      {
        assert spaced[i] == lines[i] + " ";
      }
    }
    assert spaced[|spaced| - 1] != "";
    SplitJoinTrailingEmpty(spaced, ["", ""], Crlf);
  }

  /** Cutting an encoded non-empty map at CRLF gives its spaced entry lines. */
  lemma {:induction false} SplitEncodedBlock(h: Converter.HttpHeader, order: seq<string>)
    requires Converter.IsEnumeration(order, Converter.EffectiveHeaders(h).Keys)
    requires Converter.Encodable(Converter.EffectiveHeaders(h)) && |order| >= 1
    ensures Split(Converter.Encode(h, order), Crlf)
         == Spaced(Converter.EntryLines(order, Converter.EffectiveHeaders(h)))
  {
    var m := Converter.EffectiveHeaders(h);
    var lines := Converter.EntryLines(order, m);
    forall i | 0 <= i < |lines|
      ensures '\r' !in lines[i]
    {
      Converter.RenderedEntryShape(order[i], m[order[i]]);
    }
    SplitSpacedBlock(lines);
  }

  /** The strict decoder reads back whatever the converter writes for a non-empty map of
      plain names and values: the trailing empty lines are dropped by the split, and the
      blank at the end of each line by the value strip. */
  lemma {:induction false} ReadsEncodedBlock(h: Converter.HttpHeader, order: seq<string>)
    requires Converter.IsEnumeration(order, Converter.EffectiveHeaders(h).Keys)
    requires Converter.Encodable(Converter.EffectiveHeaders(h)) && |order| >= 1
    ensures Decode(Converter.Encode(h, order)) == Success(Converter.EffectiveHeaders(h))
  {
    var m := Converter.EffectiveHeaders(h);
    var spaced := Spaced(Converter.EntryLines(order, m));
    SplitEncodedBlock(h, order);
    SpacedEntryLines(order, m);
    DecodeLinesAccumulates(spaced, map[]);
    Converter.AccumulateEnumeration(order, m);
  }

  /** The block the converter writes for the empty map is a single blank line to the
      strict decoder, and it fails. */
  lemma RejectsEncodedEmptyMap(h: Converter.HttpHeader)
    requires Converter.EffectiveHeaders(h) == map[]
    ensures Decode(Converter.Encode(h, [])) == Failure(IndexOutOfBounds(1, 1))
  {
    JoinThree(" ", "", "", Crlf);
    assert Converter.Terminator == Join([" ", "", ""], Crlf);
    SplitJoinTrailingEmpty([" "], ["", ""], Crlf);
    assert [" "] + ["", ""] == [" ", "", ""];
    ParseLineWithoutColon(" ");
  }
}
