/** HttpHeaderConverter: the tolerant header-block decoder and the encoder.

    decode strips the whole block, cuts it into lines at CRLF, drops the blank lines and
    the lines made of NUL characters only, and reads the rest with the shared per-line
    algorithm.  encode writes `name: v1,v2` per entry, entries separated by " \r\n", and
    ends the block with " \r\n\r\n". */
module HttpHeaderConverter {
  import opened Wrappers
  import opened JavaStrings
  import opened HeaderLines

  /** HttpHeader as the codec sees it: the generic map, and the content type carried
      beside it (None for a null reference). */
  datatype HttpHeader = HttpHeader(header: HeaderMap, contentType: Option<string>)

  /** HEADER_KEY.CONTENT_TYPE.value */
  const ContentTypeKey: string := "Content-Type"
  const EntrySeparator: string := " \r\n"
  const Terminator: string := " \r\n\r\n"

  /** A line that decode filters out: blank, or a run of NUL characters. */
  predicate Ignorable(line: string) {
    IsBlank(line) || IsNulRun(line)
  }

  /** The filter of decode: the lines that are not ignorable, in their order. */
  function KeptLines(lines: seq<string>): (r: seq<string>)
    ensures |r| <= |lines|
    ensures forall i | 0 <= i < |r| :: !Ignorable(r[i])
    decreases |lines|
  {
    if |lines| == 0 then []
    else (if Ignorable(lines[0]) then [] else [lines[0]]) + KeptLines(lines[1..])
  }

  /** HttpHeaderConverter.decode: strip the block, cut it at CRLF, drop the ignorable
      lines, read the others.  A blank block is the empty map. */
  function Decode(headerString: string): (r: Result<HeaderMap, DecodeError>)
    ensures IsBlank(headerString) ==> r == Success(map[])
  {
    DecodeLines(KeptLines(Split(Strip(headerString), Crlf)), map[])
  }

  /** The map that encode writes: a content type, when set, replaces whatever the map
      holds under Content-Type; every other entry is left alone. */
  function EffectiveHeaders(h: HttpHeader): (m: HeaderMap)
    ensures h.contentType.Some? ==> ContentTypeKey in m && m[ContentTypeKey] == [h.contentType.value]
    ensures forall k | k != ContentTypeKey :: k in m <==> k in h.header
    ensures forall k | k in m && k != ContentTypeKey :: m[k] == h.header[k]
    ensures h.contentType.None? ==> m == h.header
  {
    match h.contentType
    case Some(ct) => h.header[ContentTypeKey := [ct]]
    case None => h.header
  }

  /** One entry as encode writes it. */
  function RenderEntry(key: string, values: seq<string>): string {
    key + KeyValueDelimiter + Join(values, MultipleValuesDelimiter)
  }

  /** `order` lists every key of the map exactly once: the iteration order of the
      HashMap, which the model leaves open. */
  predicate IsEnumeration(order: seq<string>, keys: set<string>) {
    && (forall i | 0 <= i < |order| :: order[i] in keys)
    && (forall k | k in keys :: k in order)
    && (forall i, j | 0 <= i < j < |order| :: order[i] != order[j])
  }

  /** The rendered entries, in iteration order. */
  function EntryLines(order: seq<string>, m: HeaderMap): (r: seq<string>)
    requires forall i | 0 <= i < |order| :: order[i] in m
    ensures |r| == |order|
    ensures forall i | 0 <= i < |order| :: r[i] == RenderEntry(order[i], m[order[i]])
  {
    seq(|order|, i requires 0 <= i < |order| => RenderEntry(order[i], m[order[i]]))
  }

  /** HttpHeaderConverter.encode, with the map's iteration order as `order`.  The block
      always ends with " \r\n\r\n", and that is all an empty map gives. */
  function Encode(h: HttpHeader, order: seq<string>): (r: string)
    requires IsEnumeration(order, EffectiveHeaders(h).Keys)
    ensures EndsWith(r, Terminator)
    ensures EffectiveHeaders(h) == map[] ==> r == Terminator
  {
    var lines := EntryLines(order, EffectiveHeaders(h));
    var body := Join(lines, EntrySeparator);
    assert (body + Terminator)[|body + Terminator| - |Terminator|..] == Terminator;
    body + Terminator
  }

  // ---------------------------------------------------------------------------
  // the filter

  /** The filter keeps exactly the lines that are not ignorable. */
  lemma {:induction false} KeptLinesFilters(lines: seq<string>, line: string)
    ensures line in KeptLines(lines) <==> line in lines && !Ignorable(line)
    decreases |lines|
  {
    if |lines| > 0 {
      KeptLinesFilters(lines[1..], line);
      assert lines == [lines[0]] + lines[1..];
    }
  }

  /** Nothing is dropped from lines none of which is ignorable. */
  lemma {:induction false} KeptLinesKeepsAll(lines: seq<string>)
    requires forall i | 0 <= i < |lines| :: !Ignorable(lines[i])
    ensures KeptLines(lines) == lines
    decreases |lines|
  {
    if |lines| > 0 {
      assert forall i | 0 <= i < |lines| - 1 :: lines[1..][i] == lines[i + 1];
      KeptLinesKeepsAll(lines[1..]);
      assert lines == [lines[0]] + lines[1..];
    }
  }

  /** Everything is dropped from lines all of which are ignorable. */
  lemma {:induction false} KeptLinesDropsAll(lines: seq<string>)
    requires forall i | 0 <= i < |lines| :: Ignorable(lines[i])
    ensures KeptLines(lines) == []
    decreases |lines|
  {
    if |lines| > 0 {
      assert forall i | 0 <= i < |lines| - 1 :: lines[1..][i] == lines[i + 1];
      KeptLinesDropsAll(lines[1..]);
    }
  }

  lemma {:induction false} KeptLinesAppend(a: seq<string>, b: seq<string>)
    ensures KeptLines(a + b) == KeptLines(a) + KeptLines(b)
    decreases |a|
  {
    if |a| > 0 {
      KeptLinesAppend(a[1..], b);
      assert (a + b)[1..] == a[1..] + b;
    } else {
      assert a + b == b;
    }
  }

  // ---------------------------------------------------------------------------
  // blank lines and padding

  /** The first line at or after `i` that is not blank, or |lines|. */
  function FirstNonBlank(lines: seq<string>, i: nat): (j: nat)
    requires i <= |lines|
    ensures i <= j <= |lines|
    ensures forall k | i <= k < j :: IsBlank(lines[k])
    ensures j == |lines| || !IsBlank(lines[j])
    decreases |lines| - i
  {
    if i == |lines| || !IsBlank(lines[i]) then i else FirstNonBlank(lines, i + 1)
  }

  /** One past the last line before `j` that is not blank, or 0. */
  function LastNonBlank(lines: seq<string>, j: nat): (i: nat)
    requires j <= |lines|
    ensures i <= j
    ensures forall k | i <= k < j :: IsBlank(lines[k])
    ensures i == 0 || !IsBlank(lines[i - 1])
    decreases j
  {
    if j == 0 || !IsBlank(lines[j - 1]) then j else LastNonBlank(lines, j - 1)
  }

  /** Every line before `j` is blank. */
  predicate BlankBefore(lines: seq<string>, j: nat)
    requires j <= |lines|
  {
    forall k | 0 <= k < j :: IsBlank(lines[k])
  }

  /** Every line from `j` on is blank. */
  predicate BlankFrom(lines: seq<string>, j: nat)
    requires j <= |lines|
  {
    forall k | j <= k < |lines| :: IsBlank(lines[k])
  }

  /** Lines a block can be cut into at CRLF: none holds a CR, the first line with text in
      it does not start with whitespace, and the last one does not end with it.  Without
      the last two, joining could move whitespace that strip would have removed into a
      line: `" a: b"` decodes as `a: b`, but `"\0\r\n a: b"` keeps the space in the name. */
  predicate LinesOfBlock(lines: seq<string>) {
    && (forall i | 0 <= i < |lines| :: '\r' !in lines[i])
    && (forall i | 0 <= i < |lines| :: StartsClean(lines, i))
    && (forall i | 0 <= i < |lines| :: EndsClean(lines, i))
  }

  /** If line `i` is the first with text in it, it does not start with whitespace. */
  predicate StartsClean(lines: seq<string>, i: nat)
    requires i < |lines|
  {
    BlankBefore(lines, i) && !IsBlank(lines[i]) ==> !IsWhitespace(lines[i][0])
  }

  /** If line `i` is the last with text in it, it does not end with whitespace. */
  predicate EndsClean(lines: seq<string>, i: nat)
    requires i < |lines|
  {
    BlankFrom(lines, i + 1) && !IsBlank(lines[i]) ==> !IsWhitespace(lines[i][|lines[i]| - 1])
  }

  lemma CrlfIsBlank()
    ensures IsBlank(Crlf)
  {
    assert Crlf[0] == '\r' && Crlf[1] == '\n';
  }

  /** Blank text around a block does not change what it decodes to; a blank block is the
      empty map. */
  lemma {:induction false} DecodeIgnoresPadding(w1: string, s: string, w2: string)
    requires IsBlank(w1) && IsBlank(w2)
    ensures Decode(w1 + s + w2) == Decode(s)
  {
    StripIgnoresPadding(w1, s, w2);
  }

  /** Blank lines joined to a non-empty block on the left are blank text before it. */
  lemma {:induction false} JoinBlankBefore(before: seq<string>, core: seq<string>)
    requires |core| > 0
    requires forall i | 0 <= i < |before| :: IsBlank(before[i])
    ensures exists w :: IsBlank(w) && Join(before + core, Crlf) == w + Join(core, Crlf)
  {
    CrlfIsBlank();
    if |before| > 0 {
      JoinBlank(before, Crlf);
      BlankConcat(Join(before, Crlf), Crlf);
      JoinAppend(before, core, Crlf);
      assert Join(before + core, Crlf) == (Join(before, Crlf) + Crlf) + Join(core, Crlf);
    } else {
      assert before + core == core;
      assert IsBlank("") && Join(before + core, Crlf) == "" + Join(core, Crlf);
    }
  }

  /** Blank lines joined to a non-empty block on the right are blank text after it. */
  lemma {:induction false} JoinBlankAfter(core: seq<string>, after: seq<string>)
    requires |core| > 0
    requires forall i | 0 <= i < |after| :: IsBlank(after[i])
    ensures exists w :: IsBlank(w) && Join(core + after, Crlf) == Join(core, Crlf) + w
  {
    CrlfIsBlank();
    if |after| > 0 {
      JoinBlank(after, Crlf);
      BlankConcat(Crlf, Join(after, Crlf));
      JoinAppend(core, after, Crlf);
      assert Join(core + after, Crlf) == Join(core, Crlf) + (Crlf + Join(after, Crlf));
    } else {
      assert core + after == core;
      assert IsBlank("") && Join(core + after, Crlf) == Join(core, Crlf) + "";
    }
  }

  /** Stripping a joined block leaves the lines from the first to the last one with text
      in them. */
  lemma {:induction false} StripJoinedLines(lines: seq<string>, first: nat, last: nat)
    requires first < last <= |lines|
    requires forall k | 0 <= k < first :: IsBlank(lines[k])
    requires forall k | last <= k < |lines| :: IsBlank(lines[k])
    requires !IsBlank(lines[first]) && !IsBlank(lines[last - 1])
    requires !IsWhitespace(lines[first][0]) && !IsWhitespace(lines[last - 1][|lines[last - 1]| - 1])
    ensures Strip(Join(lines, Crlf)) == Join(lines[first..last], Crlf)
  {
    var before, core, after := lines[..first], lines[first..last], lines[last..];
    assert lines == before + (core + after);
    assert core[0] == lines[first] && core[|core| - 1] == lines[last - 1];
    assert forall i | 0 <= i < |before| :: before[i] == lines[i];
    assert forall i | 0 <= i < |after| :: after[i] == lines[last + i];
    JoinTrimmed(core, Crlf);
    JoinBlankAfter(core, after);
    var w2 :| IsBlank(w2) && Join(core + after, Crlf) == Join(core, Crlf) + w2;
    JoinBlankBefore(before, core + after);
    var w1 :| IsBlank(w1) && Join(lines, Crlf) == w1 + Join(core + after, Crlf);
    assert Join(lines, Crlf) == w1 + Join(core, Crlf) + w2;
    StripUnique(w1, Join(core, Crlf), w2);
  }

  /** The filter drops the blank lines at both ends of a block. */
  lemma {:induction false} KeptLinesOfCore(lines: seq<string>, first: nat, last: nat)
    requires first <= last <= |lines|
    requires forall k | 0 <= k < first :: IsBlank(lines[k])
    requires forall k | last <= k < |lines| :: IsBlank(lines[k])
    ensures KeptLines(lines) == KeptLines(lines[first..last])
  {
    var before, core, after := lines[..first], lines[first..last], lines[last..];
    assert lines == before + core + after;
    assert forall i | 0 <= i < |before| :: before[i] == lines[i] && Ignorable(before[i]);
    assert forall i | 0 <= i < |after| :: after[i] == lines[last + i] && Ignorable(after[i]);
    KeptLinesDropsAll(before);
    KeptLinesDropsAll(after);
    KeptLinesAppend(before + core, after);
    KeptLinesAppend(before, core);
  }

  /** A block of blank lines decodes to the empty map. */
  lemma {:induction false} DecodeBlankLines(lines: seq<string>)
    requires forall i | 0 <= i < |lines| :: IsBlank(lines[i])
    ensures Decode(Join(lines, Crlf)) == DecodeLines(KeptLines(lines), map[])
  {
    CrlfIsBlank();
    JoinBlank(lines, Crlf);
    assert forall i | 0 <= i < |lines| :: Ignorable(lines[i]);
    KeptLinesDropsAll(lines);
  }

  /** A block with text in it decodes as the lines from the first to the last line with
      text in them. */
  lemma {:induction false} DecodeCoreLines(lines: seq<string>, first: nat, last: nat)
    requires forall i | 0 <= i < |lines| :: '\r' !in lines[i]
    requires first < last <= |lines|
    requires forall k | 0 <= k < first :: IsBlank(lines[k])
    requires forall k | last <= k < |lines| :: IsBlank(lines[k])
    requires !IsBlank(lines[first]) && !IsBlank(lines[last - 1])
    requires !IsWhitespace(lines[first][0]) && !IsWhitespace(lines[last - 1][|lines[last - 1]| - 1])
    ensures Decode(Join(lines, Crlf)) == DecodeLines(KeptLines(lines), map[])
  {
    var core := lines[first..last];
    StripJoinedLines(lines, first, last);
    forall i | 0 <= i < |core|
      ensures Crlf[0] !in core[i]
    {
      assert core[i] == lines[first + i];
    }
    SplitJoin(core, Crlf);
    KeptLinesOfCore(lines, first, last);
    assert Split(Strip(Join(lines, Crlf)), Crlf) == core;
  }

  /** The first and the last line with text in them have no whitespace at the outer
      ends. */
  lemma BlockEdges(lines: seq<string>, first: nat, last: nat)
    requires LinesOfBlock(lines)
    requires first < last <= |lines|
    requires BlankBefore(lines, first) && BlankFrom(lines, last)
    requires !IsBlank(lines[first]) && !IsBlank(lines[last - 1])
    ensures !IsWhitespace(lines[first][0]) && !IsWhitespace(lines[last - 1][|lines[last - 1]| - 1])
  {
    assert StartsClean(lines, first) && EndsClean(lines, last - 1);
  }

  /** A block joined from lines decodes as its non-ignorable lines do: blank lines and
      NUL lines, wherever they are, are dropped, and nothing else is. */
  lemma {:induction false} DecodeJoinedLines(lines: seq<string>)
    requires LinesOfBlock(lines)
    ensures Decode(Join(lines, Crlf)) == DecodeLines(KeptLines(lines), map[])
  {
    var first := FirstNonBlank(lines, 0);
    if first == |lines| {
      DecodeBlankLines(lines);
    } else {
      var last := LastNonBlank(lines, |lines|);
      BlockEdges(lines, first, last);
      DecodeCoreLines(lines, first, last);
    }
  }

  /** An ignorable line without CR can join any block. */
  lemma {:induction false} InsertedLineOfBlock(lines: seq<string>, i: nat, extra: string)
    requires LinesOfBlock(lines) && i <= |lines|
    requires Ignorable(extra) && '\r' !in extra
    ensures LinesOfBlock(lines[..i] + [extra] + lines[i..])
  {
    var longer := lines[..i] + [extra] + lines[i..];
    assert longer[i] == extra;
    assert forall k | 0 <= k < i :: longer[k] == lines[k];
    assert forall k | i < k < |longer| :: longer[k] == lines[k - 1];
    forall k | 0 <= k < |longer| && BlankBefore(longer, k) && !IsBlank(longer[k])
      ensures !IsWhitespace(longer[k][0])
    {
      assert k != i ==> StartsClean(lines, if k < i then k else k - 1);
      if k == i {
        assert extra[0] == '\0';
      } else if k > i {
        assert BlankBefore(lines, k - 1) by {
          forall j | 0 <= j < k - 1
            ensures IsBlank(lines[j])
          {
            if j < i {
              assert longer[j] == lines[j];
            } else {
              assert longer[j + 1] == lines[j];
            }
          }
        }
      } else {
        assert BlankBefore(lines, k) by {
          forall j | 0 <= j < k
            ensures IsBlank(lines[j])
          {
            assert longer[j] == lines[j];
          }
        }
      }
    }
    forall k | 0 <= k < |longer| && BlankFrom(longer, k + 1) && !IsBlank(longer[k])
      ensures !IsWhitespace(longer[k][|longer[k]| - 1])
    {
      assert k != i ==> EndsClean(lines, if k < i then k else k - 1);
      if k == i {
        assert extra[|extra| - 1] == '\0';
      } else if k > i {
        assert BlankFrom(lines, k) by {
          forall j | k <= j < |lines|
            ensures IsBlank(lines[j])
          {
            assert longer[j + 1] == lines[j];
          }
        }
      } else {
        assert BlankFrom(lines, k + 1) by {
          forall j | k + 1 <= j < |lines|
            ensures IsBlank(lines[j])
          {
            if j < i {
              assert longer[j] == lines[j];
            } else {
              assert longer[j + 1] == lines[j];
            }
          }
        }
      }
    }
    assert forall k | 0 <= k < |longer| :: StartsClean(longer, k) && EndsClean(longer, k);
  }

  /** The filter drops an inserted ignorable line. */
  lemma {:induction false} KeptLinesInserted(lines: seq<string>, i: nat, extra: string)
    requires i <= |lines| && Ignorable(extra)
    ensures KeptLines(lines[..i] + [extra] + lines[i..]) == KeptLines(lines)
  {
    var before, after := lines[..i], lines[i..];
    KeptLinesDropsAll([extra]);
    KeptLinesAppend(before, [extra]);
    assert KeptLines(before + [extra]) == KeptLines(before);
    KeptLinesAppend(before + [extra], after);
    KeptLinesAppend(before, after);
    assert before + after == lines;
  }

  /** Putting a blank or NUL line anywhere into a block does not change what it decodes
      to. */
  lemma {:induction false} DecodeIgnoresInsertedLine(lines: seq<string>, i: nat, extra: string)
    requires LinesOfBlock(lines) && i <= |lines|
    requires Ignorable(extra) && '\r' !in extra
    ensures Decode(Join(lines[..i] + [extra] + lines[i..], Crlf)) == Decode(Join(lines, Crlf))
  {
    InsertedLineOfBlock(lines, i, extra);
    DecodeJoinedLines(lines[..i] + [extra] + lines[i..]);
    DecodeJoinedLines(lines);
    KeptLinesInserted(lines, i, extra);
  }

  /** What a block decodes to, in terms of its lines: it fails exactly when a kept line
      has fewer than two tokens, and otherwise every name holds the values of all its
      lines, in line order. */
  lemma {:induction false} DecodeCollects(lines: seq<string>)
    requires LinesOfBlock(lines)
    ensures Decode(Join(lines, Crlf)).Success? <==> AllParse(KeptLines(lines))
    ensures Decode(Join(lines, Crlf)).Failure? ==> Decode(Join(lines, Crlf)).error.IndexOutOfBounds?
    ensures AllParse(KeptLines(lines)) ==>
              && Decode(Join(lines, Crlf)).value.Keys == Names(Entries(KeptLines(lines)))
              && forall k :: Lookup(Decode(Join(lines, Crlf)).value, k) == ValuesOf(Entries(KeptLines(lines)), k)
  {
    DecodeJoinedLines(lines);
    DecodeLinesCollects(KeptLines(lines));
  }

  /** What any text decodes to: strip it, cut it at CRLF and drop the ignorable lines;
      it fails exactly when one of the lines left has fewer than two tokens, and
      otherwise every name holds the values of all its lines, in line order. */
  lemma {:induction false} DecodeTextCollects(headerString: string)
    ensures var lines := KeptLines(Split(Strip(headerString), Crlf));
            && (Decode(headerString).Success? <==> AllParse(lines))
            && (Decode(headerString).Failure? ==> Decode(headerString).error.IndexOutOfBounds?)
            && (AllParse(lines) ==>
                  && Decode(headerString).value.Keys == Names(Entries(lines))
                  && forall k :: Lookup(Decode(headerString).value, k) == ValuesOf(Entries(lines), k))
  {
    DecodeLinesCollects(KeptLines(Split(Strip(headerString), Crlf)));
  }

  /** Stripping `Key: ` leaves `Key:`. */
  lemma {:induction false} StripDanglingKey(key: string)
    requires key != [] && !IsWhitespace(key[0])
    ensures Strip(key + KeyValueDelimiter) == key + ":"
  {
    var line := key + ":";
    assert key + KeyValueDelimiter == "" + line + " ";
    assert IsTrimmed(line) by {
      assert line[0] == key[0] && line[|line| - 1] == ':';
    }
    assert IsBlank(" ") by {
      assert " "[0] == ' ';
    }
    StripUnique("", line, " ");
  }

  /** `Key: ` alone: stripping the block takes the space after the colon with it, the one
      line left has a single token, and decode fails. */
  lemma {:induction false} DecodeDanglingKeyFails(key: string)
    requires key != [] && !IsWhitespace(key[0]) && ':' !in key && '\r' !in key
    ensures Decode(key + KeyValueDelimiter) == Failure(IndexOutOfBounds(1, 1))
  {
    var line := key + ":";
    StripDanglingKey(key);
    RawSplitNoDelimiter(line, Crlf);
    assert Split(line, Crlf) == [line];
    assert !Ignorable(line) by {
      assert line[|line| - 1] == ':';
    }
    assert KeptLines([line]) == [line];
    ParseLineDanglingColon(key);
  }

  /** Every entry of the written map appears in the block as `name: v1,v2`, followed by
      " \r\n". */
  lemma {:induction false} EncodeContainsEveryEntry(h: HttpHeader, order: seq<string>, k: string)
    returns (before: string, after: string)
    requires IsEnumeration(order, EffectiveHeaders(h).Keys)
    requires k in EffectiveHeaders(h)
    ensures Encode(h, order) == before + RenderEntry(k, EffectiveHeaders(h)[k]) + EntrySeparator + after
  {
    var m := EffectiveHeaders(h);
    var lines := EntryLines(order, m);
    var i :| 0 <= i < |order| && order[i] == k;
    var b, a := JoinAt(lines, EntrySeparator, i);
    assert Terminator == EntrySeparator + Crlf;
    before, after := b, a + Crlf;
    calc {
      Encode(h, order);
      Join(lines, EntrySeparator) + EntrySeparator + Crlf;
      (b + lines[i] + EntrySeparator + a) + Crlf;
      before + RenderEntry(k, m[k]) + EntrySeparator + after;
    }
  }

  // ---------------------------------------------------------------------------
  // encode, then decode

  /** A name that encode writes and decode reads back: not empty, not starting with
      whitespace, with no colon and no CR in it. */
  predicate PlainKey(k: string) {
    k != [] && !IsWhitespace(k[0]) && ':' !in k && '\r' !in k
  }

  /** A map every entry of which survives encoding: a plain name with at least one value,
      every value plain. */
  predicate Encodable(m: HeaderMap) {
    forall k | k in m ::
      && PlainKey(k)
      && |m[k]| >= 1
      && (forall j | 0 <= j < |m[k]| :: PlainValue(m[k][j]))
  }

  /** The entry lines with the blank of " \r\n" moved onto the line before it. */
  function Padded(lines: seq<string>): (r: seq<string>)
    ensures |r| == |lines|
  {
    seq(|lines|, i requires 0 <= i < |lines| => if i < |lines| - 1 then lines[i] + " " else lines[i])
  }

  /** Joining with " \r\n" is joining the padded lines with CRLF. */
  lemma {:induction false} JoinPadded(lines: seq<string>)
    requires |lines| >= 1
    ensures Join(lines, EntrySeparator) == Join(Padded(lines), Crlf)
    decreases |lines|
  {
    if |lines| > 1 {
      JoinPadded(lines[1..]);
      assert Padded(lines) == [lines[0] + " "] + Padded(lines[1..]);
      assert Join(Padded(lines), Crlf) == (lines[0] + " ") + Crlf + Join(Padded(lines[1..]), Crlf);
    }
  }

  /** What a rendered entry looks like from outside: its name first, a colon right after
      the name, no CR, and no whitespace at either end. */
  lemma {:induction false} RenderedEntryShape(key: string, values: seq<string>)
    requires PlainKey(key)
    requires |values| >= 1 && forall j | 0 <= j < |values| :: PlainValue(values[j])
    ensures |RenderEntry(key, values)| > |key|
    ensures RenderEntry(key, values)[|key|] == ':'
    ensures RenderEntry(key, values)[0] == key[0]
    ensures !IsWhitespace(RenderEntry(key, values)[|RenderEntry(key, values)| - 1])
    ensures '\r' !in RenderEntry(key, values)
  {
    var joined := Join(values, MultipleValuesDelimiter);
    var line := RenderEntry(key, values);
    assert line == key + (KeyValueDelimiter + joined);
    JoinAvoids(values, MultipleValuesDelimiter, '\r');
    JoinEnds(values, MultipleValuesDelimiter);
    var last := values[|values| - 1];
    assert joined[|joined| - 1] == joined[|joined| - |last|..][|last| - 1];
    assert line[|line| - 1] == joined[|joined| - 1];
  }

  /** Each padded entry line reads back as its entry. */
  lemma {:induction false} ParsePaddedLine(order: seq<string>, m: HeaderMap, i: nat)
    requires forall k | 0 <= k < |order| :: order[k] in m
    requires Encodable(m) && i < |order|
    ensures ParseLine(Padded(EntryLines(order, m))[i]) == Success((order[i], m[order[i]]))
  {
    var key := order[i];
    var pad := if i < |order| - 1 then " " else "";
    assert Padded(EntryLines(order, m))[i] == RenderEntry(key, m[key]) + pad;
    assert IsBlank(pad) by {
      if pad == " " {
        assert pad[0] == ' ';
      }
    }
    ParseRenderedLine(key, m[key], pad);
  }

  /** The padded entry lines are the lines of a block the filter keeps whole. */
  lemma {:induction false} PaddedLinesShape(order: seq<string>, m: HeaderMap)
    requires |order| >= 1
    requires forall k | 0 <= k < |order| :: order[k] in m
    requires Encodable(m)
    ensures forall i | 0 <= i < |order| :: '\r' !in Padded(EntryLines(order, m))[i]
    ensures KeptLines(Padded(EntryLines(order, m))) == Padded(EntryLines(order, m))
    ensures IsTrimmed(Join(Padded(EntryLines(order, m)), Crlf))
    ensures Padded(EntryLines(order, m))[|order| - 1] != []
  {
    var lines := EntryLines(order, m);
    var padded := Padded(lines);
    var n := |order|;
    forall i | 0 <= i < n
      ensures '\r' !in padded[i] && !Ignorable(padded[i])
    {
      var key := order[i];
      RenderedEntryShape(key, m[key]);
      assert padded[i][|key|] == ':';
    }
    KeptLinesKeepsAll(padded);
    RenderedEntryShape(order[0], m[order[0]]);
    RenderedEntryShape(order[n - 1], m[order[n - 1]]);
    assert padded[0][0] == order[0][0];
    JoinTrimmed(padded, Crlf);
  }

  /** The map's entries in iteration order. */
  function MapEntries(order: seq<string>, m: HeaderMap): (r: seq<Entry>)
    requires forall k | 0 <= k < |order| :: order[k] in m
    ensures |r| == |order|
    ensures forall i | 0 <= i < |order| :: r[i] == (order[i], m[order[i]])
  {
    seq(|order|, i requires 0 <= i < |order| => (order[i], m[order[i]]))
  }

  /** The padded lines read back as the map's entries in iteration order. */
  lemma {:induction false} PaddedEntries(order: seq<string>, m: HeaderMap)
    requires forall k | 0 <= k < |order| :: order[k] in m
    requires Encodable(m)
    ensures AllParse(Padded(EntryLines(order, m)))
    ensures Entries(Padded(EntryLines(order, m))) == MapEntries(order, m)
  {
    var padded := Padded(EntryLines(order, m));
    forall i | 0 <= i < |order|
      ensures ParseLine(padded[i]) == Success((order[i], m[order[i]]))
    {
      ParsePaddedLine(order, m, i);
    }
  }

  /** Every name of the map is among the entries, with its own values. */
  lemma {:induction false} EnumeratedEntry(order: seq<string>, m: HeaderMap, k: string)
    requires IsEnumeration(order, m.Keys) && k in m
    ensures k in Names(MapEntries(order, m))
    ensures ValuesOf(MapEntries(order, m), k) == m[k]
  {
    var entries := MapEntries(order, m);
    NamesListed(entries);
    var i :| 0 <= i < |order| && order[i] == k;
    assert entries[i].0 == k;
    ValuesOfDistinct(entries, i);
  }

  /** The names of a map's entries are the map's names. */
  lemma {:induction false} EnumeratedNames(order: seq<string>, m: HeaderMap)
    requires IsEnumeration(order, m.Keys)
    ensures Names(MapEntries(order, m)) == m.Keys
  {
    var entries := MapEntries(order, m);
    NamesListed(entries);
    forall k | k in Names(entries)
      ensures k in m
    {
      var i :| 0 <= i < |entries| && entries[i].0 == k;
    }
    forall k | k in m
      ensures k in Names(entries)
    {
      EnumeratedEntry(order, m, k);
    }
  }

  /** Collecting the entries of a map, each name once, gives the map back. */
  lemma {:induction false} AccumulateEnumeration(order: seq<string>, m: HeaderMap)
    requires IsEnumeration(order, m.Keys)
    ensures Accumulate(MapEntries(order, m), map[]) == m
  {
    var entries := MapEntries(order, m);
    var r := Accumulate(entries, map[]);
    AccumulateCollects(entries, map[]);
    EnumeratedNames(order, m);
    forall k | k in m
      ensures r[k] == m[k]
    {
      EnumeratedEntry(order, m, k);
    }
  }

  /** The block encode writes for a non-empty map: the padded entry lines joined with
      CRLF, then the terminator. */
  lemma {:induction false} EncodeLayout(h: HttpHeader, order: seq<string>)
    requires IsEnumeration(order, EffectiveHeaders(h).Keys) && |order| >= 1
    ensures Encode(h, order) == Join(Padded(EntryLines(order, EffectiveHeaders(h))), Crlf) + Terminator
  {
    JoinPadded(EntryLines(order, EffectiveHeaders(h)));
  }

  lemma TerminatorIsBlank()
    ensures IsBlank(Terminator)
  {
    assert forall i | 0 <= i < |Terminator| :: Terminator[i] in {' ', '\r', '\n'};
  }

  /** Stripping a terminated block of lines and cutting it at CRLF gives back the lines. */
  lemma {:induction false} StripSplitBlock(lines: seq<string>)
    requires |lines| >= 1 && lines[|lines| - 1] != []
    requires forall i | 0 <= i < |lines| :: '\r' !in lines[i]
    requires IsTrimmed(Join(lines, Crlf))
    ensures Split(Strip(Join(lines, Crlf) + Terminator), Crlf) == lines
  {
    var body := Join(lines, Crlf);
    TerminatorIsBlank();
    assert body + Terminator == "" + body + Terminator;
    StripUnique("", body, Terminator);
    SplitJoin(lines, Crlf);
  }

  /** Stripping and cutting an encoded block gives back the padded entry lines, all of
      which the filter keeps. */
  lemma {:induction false} LinesOfPaddedBlock(order: seq<string>, m: HeaderMap)
    requires forall k | 0 <= k < |order| :: order[k] in m
    requires Encodable(m) && |order| >= 1
    ensures KeptLines(Split(Strip(Join(Padded(EntryLines(order, m)), Crlf) + Terminator), Crlf))
         == Padded(EntryLines(order, m))
  {
    PaddedLinesShape(order, m);
    StripSplitBlock(Padded(EntryLines(order, m)));
  }

  /** The padded entry lines of a map, joined and terminated, decode to the map. */
  lemma {:induction false} DecodePaddedBlock(order: seq<string>, m: HeaderMap)
    requires IsEnumeration(order, m.Keys) && Encodable(m) && |order| >= 1
    ensures Decode(Join(Padded(EntryLines(order, m)), Crlf) + Terminator) == Success(m)
  {
    var padded := Padded(EntryLines(order, m));
    LinesOfPaddedBlock(order, m);
    PaddedEntries(order, m);
    DecodeLinesAccumulates(padded, map[]);
    AccumulateEnumeration(order, m);
  }

  /** encode, then decode, gives back the map encode wrote, for every map of plain names
      and values: the content type, when set, in place of the Content-Type entry. */
  lemma {:induction false} RoundTrip(h: HttpHeader, order: seq<string>)
    requires IsEnumeration(order, EffectiveHeaders(h).Keys)
    requires Encodable(EffectiveHeaders(h))
    ensures Decode(Encode(h, order)) == Success(EffectiveHeaders(h))
  {
    if |order| == 0 {
      assert EffectiveHeaders(h) == map[];
      TerminatorIsBlank();
    } else {
      EncodeLayout(h, order);
      DecodePaddedBlock(order, EffectiveHeaders(h));
    }
  }

  /** Without a content type, decode(encode(h)) is h's own map. */
  lemma {:induction false} RoundTripHeaderOnly(h: HttpHeader, order: seq<string>)
    requires h.contentType.None?
    requires IsEnumeration(order, h.header.Keys) && Encodable(h.header)
    ensures Decode(Encode(h, order)) == Success(h.header)
  {
    RoundTrip(h, order);
  }
}
