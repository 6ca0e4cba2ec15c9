/** The per-line algorithm that HttpHeaderConverter.decode and HttpHeaderDecoder.decode
    share: a line is cut at ": " into a name and a value, the value is cut at "," with each
    piece stripped, and the pieces are appended to the list kept under the name. */
module HeaderLines {
  import opened Wrappers
  import opened JavaStrings

  /** Header name to its values, in the order they were met. */
  type HeaderMap = map<string, seq<string>>

  const KeyValueDelimiter: string := ": "
  const MultipleValuesDelimiter: string := ","
  const Crlf: string := "\r\n"

  /** The values already stored under `key`, or none. */
  function Lookup(m: HeaderMap, key: string): seq<string> {
    if key in m then m[key] else []
  }

  /** `computeIfAbsent(key, ...).addAll(values)`: the new values go after the old ones and
      no other name is touched. */
  function Append(m: HeaderMap, key: string, values: seq<string>): (r: HeaderMap)
    ensures r.Keys == m.Keys + {key}
    ensures r[key] == Lookup(m, key) + values
    ensures forall k | k in m && k != key :: r[k] == m[k]
  {
    m[key := Lookup(m, key) + values]
  }

  /** decodeMultipleValues: the comma-separated tokens of a header value, each stripped. */
  function DecodeMultipleValues(value: string): (r: seq<string>)
    ensures forall i | 0 <= i < |r| :: IsTrimmed(r[i]) && ',' !in r[i]
  {
    var tokens := Split(value, MultipleValuesDelimiter);
    seq(|tokens|, i requires 0 <= i < |tokens| => StripKeepsOut(tokens[i], ','); Strip(tokens[i]))
  }

  /** The values of comma-joined tokens are the tokens, in order, each stripped; a
      trailing empty token is dropped by the split, so the last one must have text. */
  lemma {:induction false} DecodeJoinedValues(tokens: seq<string>)
    requires |tokens| >= 1 && (|tokens| == 1 || tokens[|tokens| - 1] != "")
    requires forall i | 0 <= i < |tokens| :: ',' !in tokens[i]
    ensures |DecodeMultipleValues(Join(tokens, MultipleValuesDelimiter))| == |tokens|
    ensures forall i | 0 <= i < |tokens| ::
              DecodeMultipleValues(Join(tokens, MultipleValuesDelimiter))[i] == Strip(tokens[i])
  {
    SplitJoin(tokens, MultipleValuesDelimiter);
  }

  /** `line` is `name`, the delimiter, `value` and a `tail` that is empty or starts with the
      delimiter again, and neither `name` nor `value` holds the delimiter. */
  predicate LeadingTokens(line: string, name: string, value: string, tail: string) {
    && line == name + KeyValueDelimiter + value + tail
    && !Contains(name, KeyValueDelimiter)
    && !Contains(value, KeyValueDelimiter)
    && (tail == [] || StartsWith(tail, KeyValueDelimiter))
  }

  /** One header line.  The name is the text before the first ": " and the value the text
      after it up to the next ": " (later tokens are dropped).  When the split yields fewer
      than two tokens, reading `keyValue[0]` or `keyValue[1]` is out of bounds. */
  function ParseLine(line: string): (r: Result<(string, seq<string>), DecodeError>)
    ensures r.Success? <==> |Split(line, KeyValueDelimiter)| >= 2
    ensures r.Failure? ==> r.error.IndexOutOfBounds? && r.error.index == r.error.length < 2
    ensures r.Success? ==> StartsWith(line, r.value.0 + KeyValueDelimiter)
    ensures r.Success? ==> !Contains(r.value.0, KeyValueDelimiter)
    ensures r.Success? ==>
              exists value, tail ::
                LeadingTokens(line, r.value.0, value, tail) && r.value.1 == DecodeMultipleValues(value)
  {
    var kv := Split(line, KeyValueDelimiter);
    if |kv| < 2 then
      Failure(IndexOutOfBounds(|kv|, |kv|))
    else
      var raw := RawSplit(line, KeyValueDelimiter);
      RawSplitPiecesAvoid(line, KeyValueDelimiter);
      RawSplitLeading(line, KeyValueDelimiter);
      var tail := if |raw| > 2 then KeyValueDelimiter + Join(raw[2..], KeyValueDelimiter) else [];
      assert kv[0] == raw[0] && kv[1] == raw[1];
      assert tail == [] || StartsWith(tail, KeyValueDelimiter) by {
        if |raw| > 2 {
          assert tail[..|KeyValueDelimiter|] == KeyValueDelimiter;
        }
      }
      assert line == kv[0] + KeyValueDelimiter + kv[1] + tail;
      assert LeadingTokens(line, kv[0], kv[1], tail);
      Success((kv[0], DecodeMultipleValues(kv[1])))
  }

  /** A line reads as the text before its first ": " and the values of the text between
      that and the next ": "; whatever follows a second ": " is dropped.  Single colons
      anywhere, as in `Host: localhost:8080`, are ordinary text. */
  lemma {:induction false} ParseLineTokens(key: string, value: string, rest: string)
    requires !Contains(key, KeyValueDelimiter) && !Contains(value, KeyValueDelimiter) && value != ""
    ensures ParseLine(key + KeyValueDelimiter + value) == Success((key, DecodeMultipleValues(value)))
    ensures ParseLine(key + KeyValueDelimiter + value + KeyValueDelimiter + rest)
         == Success((key, DecodeMultipleValues(value)))
  {
    assert SelfDisjoint(KeyValueDelimiter) by {
      assert KeyValueDelimiter[0] == ':' && KeyValueDelimiter[1] == ' ';
    }
    SplitLeadingPieces(key, KeyValueDelimiter, value, rest);
  }

  /** A line with no colon at all has a single token and fails when its value is read. */
  lemma {:induction false} ParseLineWithoutColon(line: string)
    requires ':' !in line
    ensures ParseLine(line) == Failure(IndexOutOfBounds(1, 1))
  {
    RawSplitNoDelimiter(line, KeyValueDelimiter);
  }

  /** `Key:` with nothing after the colon has a single token and fails as well. */
  lemma {:induction false} ParseLineDanglingColon(key: string)
    requires ':' !in key
    ensures ParseLine(key + ":") == Failure(IndexOutOfBounds(1, 1))
  {
    RawSplitHalfDelimiterAtEnd(key, KeyValueDelimiter);
  }

  /** The loop over the lines: each line's values are appended under its name, and the
      first line that cannot be read ends the decoding with its failure. */
  function DecodeLines(lines: seq<string>, acc: HeaderMap): (r: Result<HeaderMap, DecodeError>)
    ensures r.Failure? ==> r.error.IndexOutOfBounds? && r.error.index == r.error.length < 2
    ensures r.Success? ==> acc.Keys <= r.value.Keys
    decreases |lines|
  {
    if |lines| == 0 then
      Success(acc)
    else
      match ParseLine(lines[0])
      case Failure(e) => Failure(e)
      case Success(entry) => DecodeLines(lines[1..], Append(acc, entry.0, entry.1))
  }

  predicate AllParse(lines: seq<string>) {
    forall i | 0 <= i < |lines| :: ParseLine(lines[i]).Success?
  }

  /** A decoded line: a name and its values. */
  type Entry = (string, seq<string>)

  /** The entries of a run of readable lines, in line order. */
  function Entries(lines: seq<string>): (r: seq<Entry>)
    requires AllParse(lines)
    ensures |r| == |lines|
    ensures forall i | 0 <= i < |lines| :: Success(r[i]) == ParseLine(lines[i])
  {
    seq(|lines|, i requires 0 <= i < |lines| => ParseLine(lines[i]).value)
  }

  /** Appending the entries one after the other, as the loop of decode does. */
  function Accumulate(entries: seq<Entry>, acc: HeaderMap): HeaderMap
    decreases |entries|
  {
    if |entries| == 0 then acc
    else Accumulate(entries[1..], Append(acc, entries[0].0, entries[0].1))
  }

  /** Reference definition: the names that occur among the entries. */
  function Names(entries: seq<Entry>): set<string>
    decreases |entries|
  {
    if |entries| == 0 then {} else {entries[0].0} + Names(entries[1..])
  }

  /** Reference definition: every value the entries give `key`, entry by entry and token
      by token. */
  function ValuesOf(entries: seq<Entry>, key: string): seq<string>
    decreases |entries|
  {
    if |entries| == 0 then []
    else (if entries[0].0 == key then entries[0].1 else []) + ValuesOf(entries[1..], key)
  }

  /** The names present afterwards are those present before and those of the entries. */
  lemma {:induction false} AccumulateKeys(entries: seq<Entry>, acc: HeaderMap)
    ensures Accumulate(entries, acc).Keys == acc.Keys + Names(entries)
    decreases |entries|
  {
    if |entries| > 0 {
      AccumulateKeys(entries[1..], Append(acc, entries[0].0, entries[0].1));
    }
  }

  /** Each name ends up holding what it held before followed by every value the entries
      give it, in order: repeated names accumulate. */
  lemma {:induction false} AccumulateLookup(entries: seq<Entry>, acc: HeaderMap, k: string)
    ensures Lookup(Accumulate(entries, acc), k) == Lookup(acc, k) + ValuesOf(entries, k)
    decreases |entries|
  {
    if |entries| > 0 {
      var e, rest := entries[0], entries[1..];
      var here := if e.0 == k then e.1 else [];
      var acc' := Append(acc, e.0, e.1);
      AccumulateLookup(rest, acc', k);
      LookupAppend(acc, e.0, e.1, k);
      AppendThree(Lookup(acc, k), here, ValuesOf(rest, k));
    }
  }

  /** Re-association step of AccumulateLookup, proved on its own to keep that proof small. */
  lemma AppendThree(a: seq<string>, b: seq<string>, c: seq<string>)
    ensures (a + b) + c == a + (b + c)
  {
  }

  lemma {:induction false} AccumulateCollects(entries: seq<Entry>, acc: HeaderMap)
    ensures Accumulate(entries, acc).Keys == acc.Keys + Names(entries)
    ensures forall k | k in Accumulate(entries, acc) ::
              Accumulate(entries, acc)[k] == Lookup(acc, k) + ValuesOf(entries, k)
  {
    AccumulateKeys(entries, acc);
    forall k | k in Accumulate(entries, acc)
      ensures Accumulate(entries, acc)[k] == Lookup(acc, k) + ValuesOf(entries, k)
    {
      AccumulateLookup(entries, acc, k);
    }
  }

  /** The names of the entries are the first components, and nothing else. */
  lemma {:induction false} NamesListed(entries: seq<Entry>)
    ensures forall i | 0 <= i < |entries| :: entries[i].0 in Names(entries)
    ensures forall k | k in Names(entries) :: exists i | 0 <= i < |entries| :: entries[i].0 == k
    decreases |entries|
  {
    if |entries| > 0 {
      var rest := entries[1..];
      NamesListed(rest);
      assert Names(entries) == {entries[0].0} + Names(rest);
      assert forall i | 1 <= i < |entries| :: entries[i] == rest[i - 1];
      forall k | k in Names(entries)
        ensures exists i | 0 <= i < |entries| :: entries[i].0 == k
      {
        if k != entries[0].0 {
          assert k in Names(rest);
          var j :| 0 <= j < |rest| && rest[j].0 == k;
          assert entries[j + 1].0 == k;
        }
      }
    }
  }

  /** A name no entry carries gets no values. */
  lemma {:induction false} ValuesOfAbsent(entries: seq<Entry>, key: string)
    requires forall i | 0 <= i < |entries| :: entries[i].0 != key
    ensures ValuesOf(entries, key) == []
    decreases |entries|
  {
    if |entries| > 0 {
      assert forall i | 0 <= i < |entries| - 1 :: entries[1..][i] == entries[i + 1];
      ValuesOfAbsent(entries[1..], key);
    }
  }

  /** When no name repeats, a name gets exactly the values of its one entry. */
  lemma {:induction false} ValuesOfDistinct(entries: seq<Entry>, i: nat)
    requires i < |entries|
    requires forall a, b | 0 <= a < b < |entries| :: entries[a].0 != entries[b].0
    ensures ValuesOf(entries, entries[i].0) == entries[i].1
    decreases i
  {
    var rest := entries[1..];
    assert forall a | 0 <= a < |rest| :: rest[a] == entries[a + 1];
    if i == 0 {
      ValuesOfAbsent(rest, entries[0].0);
    } else {
      ValuesOfDistinct(rest, i - 1);
    }
  }

  lemma {:induction false} LookupAppend(m: HeaderMap, key: string, values: seq<string>, k: string)
    ensures Lookup(Append(m, key, values), k) == Lookup(m, k) + (if key == k then values else [])
  {
  }

  /** The loop succeeds exactly when every line is readable. */
  lemma {:induction false} DecodeLinesSucceedsIff(lines: seq<string>, acc: HeaderMap)
    ensures DecodeLines(lines, acc).Success? <==> AllParse(lines)
    decreases |lines|
  {
    if |lines| > 0 {
      var p := ParseLine(lines[0]);
      if p.Success? {
        var acc' := Append(acc, p.value.0, p.value.1);
        assert DecodeLines(lines, acc) == DecodeLines(lines[1..], acc');
        DecodeLinesSucceedsIff(lines[1..], acc');
        if AllParse(lines[1..]) {
          forall i | 0 <= i < |lines|
            ensures ParseLine(lines[i]).Success?
          {
            if i > 0 {
              assert lines[i] == lines[1..][i - 1];
            }
          }
        } else {
          var i :| 0 <= i < |lines[1..]| && ParseLine(lines[1..][i]).Failure?;
          assert lines[1..][i] == lines[i + 1];
        }
      }
    }
  }

  lemma {:induction false} AllParseTail(lines: seq<string>)
    requires |lines| > 0 && AllParse(lines)
    ensures AllParse(lines[1..])
  {
    forall i | 0 <= i < |lines| - 1
      ensures ParseLine(lines[1..][i]).Success?
    {
      assert lines[1..][i] == lines[i + 1];
    }
  }

  /** When every line is readable, the loop is the accumulation of their entries. */
  lemma {:induction false} DecodeLinesAccumulates(lines: seq<string>, acc: HeaderMap)
    requires AllParse(lines)
    ensures DecodeLines(lines, acc) == Success(Accumulate(Entries(lines), acc))
    decreases |lines|
  {
    if |lines| > 0 {
      var p := ParseLine(lines[0]).value;
      AllParseTail(lines);
      DecodeLinesAccumulates(lines[1..], Append(acc, p.0, p.1));
      assert Entries(lines)[1..] == Entries(lines[1..]);
    }
  }

  /** The loop from an empty map: it fails exactly when some line has fewer than two
      tokens, and otherwise every name holds the values of all its lines, in line order. */
  lemma {:induction false} DecodeLinesCollects(lines: seq<string>)
    ensures DecodeLines(lines, map[]).Success? <==> AllParse(lines)
    ensures DecodeLines(lines, map[]).Failure? ==> DecodeLines(lines, map[]).error.IndexOutOfBounds?
    ensures AllParse(lines) ==>
              && DecodeLines(lines, map[]).value.Keys == Names(Entries(lines))
              && forall k :: Lookup(DecodeLines(lines, map[]).value, k) == ValuesOf(Entries(lines), k)
  {
    DecodeLinesSucceedsIff(lines, map[]);
    if AllParse(lines) {
      DecodeLinesAccumulates(lines, map[]);
      AccumulateKeys(Entries(lines), map[]);
      forall k {
        AccumulateLookup(Entries(lines), map[], k);
      }
    }
  }

  /** Values that survive a trip through a rendered header line unchanged. */
  predicate PlainValue(v: string) {
    && v != []
    && IsTrimmed(v)
    && ':' !in v && ',' !in v && '\r' !in v
  }

  /** Reading back `name + ": " + join(",", values) + pad` gives the name and the values,
      when the name has no ':' and the values are plain. */
  lemma {:induction false} ParseRenderedLine(key: string, values: seq<string>, pad: string)
    requires ':' !in key
    requires |values| >= 1 && forall i | 0 <= i < |values| :: PlainValue(values[i])
    requires IsBlank(pad) && ':' !in pad && ',' !in pad
    ensures ParseLine(key + KeyValueDelimiter + Join(values, MultipleValuesDelimiter) + pad)
            == Success((key, values))
  {
    var rest := Join(values, MultipleValuesDelimiter) + pad;
    var line := key + KeyValueDelimiter + Join(values, MultipleValuesDelimiter) + pad;
    assert line == key + KeyValueDelimiter + rest;
    RenderedValueShape(values, pad);
    SplitRenderedLine(key, rest);
    DecodeRenderedValues(values, pad);
  }

  /** The rendered value text, padding included, has no ':' and is not empty. */
  lemma {:induction false} RenderedValueShape(values: seq<string>, pad: string)
    requires |values| >= 1 && forall i | 0 <= i < |values| :: PlainValue(values[i])
    requires ':' !in pad
    ensures ':' !in Join(values, MultipleValuesDelimiter) + pad
    ensures Join(values, MultipleValuesDelimiter) + pad != []
  {
    JoinAvoids(values, MultipleValuesDelimiter, ':');
    JoinLength(values, MultipleValuesDelimiter);
  }

  /** A line whose name and value are free of ':' splits at ": " into exactly the two. */
  lemma {:induction false} SplitRenderedLine(key: string, rest: string)
    requires ':' !in key && ':' !in rest && rest != []
    ensures Split(key + KeyValueDelimiter + rest, KeyValueDelimiter) == [key, rest]
  {
    RawSplitNoDelimiter(rest, KeyValueDelimiter);
    RawSplitAppend(key, KeyValueDelimiter, rest);
  }

  /** The values come back from their comma-joined rendering, padding stripped off. */
  lemma {:induction false} DecodeRenderedValues(values: seq<string>, pad: string)
    requires |values| >= 1 && forall i | 0 <= i < |values| :: PlainValue(values[i])
    requires IsBlank(pad) && ',' !in pad
    ensures DecodeMultipleValues(Join(values, MultipleValuesDelimiter) + pad) == values
  {
    var n := |values|;
    var padded := values[..n - 1] + [values[n - 1] + pad];
    JoinPadLast(values, MultipleValuesDelimiter, pad);
    forall i | 0 <= i < n
      ensures ',' !in padded[i]
    {
      if i < n - 1 {
        assert padded[i] == values[i];
      }
    }
    SplitJoin(padded, MultipleValuesDelimiter);
    var decoded := DecodeMultipleValues(Join(padded, MultipleValuesDelimiter));
    forall i | 0 <= i < n
      ensures decoded[i] == values[i]
    {
      if i < n - 1 {
        assert padded[i] == values[i];
        StripTrimmed(values[i]);
      } else {
        StripUnique([], values[i], pad);
        assert [] + values[i] + pad == padded[i];
      }
    }
  }
}
