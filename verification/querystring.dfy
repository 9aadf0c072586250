/** The query-string codec (src/lib/url/index.js `objectToQueryString`,
    `queryStringToObject`) and the array-aware value stringifier (src/lib/url/util.js
    `toString`).

    Percent-encoding and decoding are the platform's `encodeURIComponent` and
    `decodeURIComponent`; they are parameters here. A decoder returns `None` where
    `decodeURIComponent` throws. */
module QueryString {
  import opened Results
  import opened Collections
  import opened Transformers

  /** An object value as `exists` sees it: missing (`null`/`undefined`) or present, in the
      text form string interpolation gives it. */
  datatype Datum = Missing | Present(text: string)

  /** How many entries have a value. */
  function PresentCount(data: seq<(string, Datum)>): (n: nat)
    ensures n <= |data|
  {
    if |data| == 0 then 0 else (if data[0].1.Present? then 1 else 0) + PresentCount(data[1..])
  }

  /** The entries that have a value, in order, with that value's text: the entry at
      position `i` lands at the position given by the number of present entries before
      it, so the order is kept and nothing else is added. */
  function PresentEntries(data: seq<(string, Datum)>): (p: seq<(string, string)>)
    ensures |p| == PresentCount(data)
    ensures forall i :: 0 <= i < |data| && data[i].1.Present? ==>
              PresentCount(data[..i]) < |p| && p[PresentCount(data[..i])] == (data[i].0, data[i].1.text)
    ensures |p| <= |data|
    ensures |p| == 0 <==> forall i :: 0 <= i < |data| ==> data[i].1.Missing?
    ensures forall i :: 0 <= i < |data| && data[i].1.Present? ==> (data[i].0, data[i].1.text) in p
    ensures forall i :: 0 <= i < |p| ==> (p[i].0, Present(p[i].1)) in data
    ensures (forall i :: 0 <= i < |data| ==> data[i].1.Present?) ==>
              |p| == |data| && forall i :: 0 <= i < |data| ==> p[i] == (data[i].0, data[i].1.text)
  {
    if |data| == 0 then []
    else
      var rest := PresentEntries(data[1..]);
      var p := match data[0].1
        case Missing => rest
        case Present(t) => [(data[0].0, t)] + rest;
      PresentEntriesStep(data, data[1..], rest, p);
      PresentOrderStep(data, data[1..], rest, p);
      p
  }

  /** Counting a prefix counts the first entry and then a prefix of the tail. */
  lemma PresentCountPrefix(data: seq<(string, Datum)>, tail: seq<(string, Datum)>, i: nat)
    requires 0 < i <= |data| && tail == data[1..]
    ensures PresentCount(data[..i]) == (if data[0].1.Present? then 1 else 0) + PresentCount(tail[..i - 1])
  {
    assert data[..i][1..] == tail[..i - 1];
  }

  /** The positions promised by `PresentEntries` carry over from the tail to the whole
      sequence, shifted by one when the first entry is present. */
  lemma PresentOrderStep(data: seq<(string, Datum)>, tail: seq<(string, Datum)>,
                         rest: seq<(string, string)>, p: seq<(string, string)>)
    requires |data| > 0 && tail == data[1..]
    requires |rest| == PresentCount(tail)
    requires forall i :: 0 <= i < |tail| && tail[i].1.Present? ==>
               PresentCount(tail[..i]) < |rest| && rest[PresentCount(tail[..i])] == (tail[i].0, tail[i].1.text)
    requires p == match data[0].1
      case Missing => rest
      case Present(t) => [(data[0].0, t)] + rest
    ensures |p| == PresentCount(data)
    ensures forall i :: 0 <= i < |data| && data[i].1.Present? ==>
              PresentCount(data[..i]) < |p| && p[PresentCount(data[..i])] == (data[i].0, data[i].1.text)
  {
    forall i | 0 <= i < |data| && data[i].1.Present?
      ensures PresentCount(data[..i]) < |p| && p[PresentCount(data[..i])] == (data[i].0, data[i].1.text)
    {
      if i > 0 {
        assert data[i] == tail[i - 1];
        PresentOrderAt(data, tail, rest, p, i);
      } else {
        assert PresentCount(data[..0]) == 0;
      }
    }
  }

  /** One later present entry keeps its promised position. */
  lemma PresentOrderAt(data: seq<(string, Datum)>, tail: seq<(string, Datum)>,
                       rest: seq<(string, string)>, p: seq<(string, string)>, i: nat)
    requires |data| > 0 && tail == data[1..] && 0 < i < |data| && data[i].1.Present?
    requires PresentCount(tail[..i - 1]) < |rest|
    requires rest[PresentCount(tail[..i - 1])] == (data[i].0, data[i].1.text)
    requires p == match data[0].1
      case Missing => rest
      case Present(t) => [(data[0].0, t)] + rest
    ensures PresentCount(data[..i]) < |p| && p[PresentCount(data[..i])] == (data[i].0, data[i].1.text)
  {
    var c := if data[0].1.Present? then 1 else 0;
    var k := PresentCount(tail[..i - 1]);
    PresentCountPrefix(data, tail, i);
    assert p[c + k] == rest[k];
  }

  /** The `PresentEntries` promises carry over from the tail to the whole sequence. */
  lemma PresentEntriesStep(data: seq<(string, Datum)>, tail: seq<(string, Datum)>,
                           rest: seq<(string, string)>, p: seq<(string, string)>)
    requires |data| > 0 && tail == data[1..]
    requires |rest| <= |tail|
    requires |rest| == 0 <==> forall i :: 0 <= i < |tail| ==> tail[i].1.Missing?
    requires forall i :: 0 <= i < |tail| && tail[i].1.Present? ==> (tail[i].0, tail[i].1.text) in rest
    requires forall i :: 0 <= i < |rest| ==> (rest[i].0, Present(rest[i].1)) in tail
    requires (forall i :: 0 <= i < |tail| ==> tail[i].1.Present?) ==>
               |rest| == |tail| && forall i :: 0 <= i < |tail| ==> rest[i] == (tail[i].0, tail[i].1.text)
    requires p == match data[0].1
      case Missing => rest
      case Present(t) => [(data[0].0, t)] + rest
    ensures |p| <= |data|
    ensures |p| == 0 <==> forall i :: 0 <= i < |data| ==> data[i].1.Missing?
    ensures forall i :: 0 <= i < |data| && data[i].1.Present? ==> (data[i].0, data[i].1.text) in p
    ensures forall i :: 0 <= i < |p| ==> (p[i].0, Present(p[i].1)) in data
    ensures (forall i :: 0 <= i < |data| ==> data[i].1.Present?) ==>
              |p| == |data| && forall i :: 0 <= i < |data| ==> p[i] == (data[i].0, data[i].1.text)
  {
    PresentEmptyStep(data, tail, rest, p);
    PresentCoversStep(data, tail, rest, p);
    PresentDrawnStep(data, tail, rest, p);
    PresentAllStep(data, tail, rest, p);
  }

  lemma PresentEmptyStep(data: seq<(string, Datum)>, tail: seq<(string, Datum)>,
                  rest: seq<(string, string)>, p: seq<(string, string)>)
    requires |data| > 0 && tail == data[1..]
    requires |rest| == 0 <==> forall i :: 0 <= i < |tail| ==> tail[i].1.Missing?
    requires p == match data[0].1
      case Missing => rest
      case Present(t) => [(data[0].0, t)] + rest
    ensures |p| == 0 <==> forall i :: 0 <= i < |data| ==> data[i].1.Missing?
  {
    if forall i :: 0 <= i < |tail| ==> tail[i].1.Missing? {
      assert forall i :: 1 <= i < |data| ==> data[i] == tail[i - 1];
    } else {
      var k :| 0 <= k < |tail| && !tail[k].1.Missing?;
      assert data[k + 1] == tail[k];
    }
  }

  lemma PresentCoversStep(data: seq<(string, Datum)>, tail: seq<(string, Datum)>,
                   rest: seq<(string, string)>, p: seq<(string, string)>)
    requires |data| > 0 && tail == data[1..]
    requires forall i :: 0 <= i < |tail| && tail[i].1.Present? ==> (tail[i].0, tail[i].1.text) in rest
    requires p == match data[0].1
      case Missing => rest
      case Present(t) => [(data[0].0, t)] + rest
    ensures forall i :: 0 <= i < |data| && data[i].1.Present? ==> (data[i].0, data[i].1.text) in p
  {
    forall i | 0 <= i < |data| && data[i].1.Present? ensures (data[i].0, data[i].1.text) in p {
      if i > 0 {
        assert data[i] == tail[i - 1];
      }
    }
  }

  lemma PresentDrawnStep(data: seq<(string, Datum)>, tail: seq<(string, Datum)>,
                  rest: seq<(string, string)>, p: seq<(string, string)>)
    requires |data| > 0 && tail == data[1..]
    requires forall i :: 0 <= i < |rest| ==> (rest[i].0, Present(rest[i].1)) in tail
    requires p == match data[0].1
      case Missing => rest
      case Present(t) => [(data[0].0, t)] + rest
    ensures forall i :: 0 <= i < |p| ==> (p[i].0, Present(p[i].1)) in data
  {
    forall i | 0 <= i < |p| ensures (p[i].0, Present(p[i].1)) in data {
      if data[0].1.Present? && i == 0 {
        assert data[0] == (p[0].0, Present(p[0].1));
      } else {
        var j := if data[0].1.Present? then i - 1 else i;
        assert p[i] == rest[j];
        var e := (rest[j].0, Present(rest[j].1));
        var k :| 0 <= k < |tail| && tail[k] == e;
        assert data[k + 1] == e;
      }
    }
  }

  lemma PresentAllStep(data: seq<(string, Datum)>, tail: seq<(string, Datum)>,
                rest: seq<(string, string)>, p: seq<(string, string)>)
    requires |data| > 0 && tail == data[1..]
    requires (forall i :: 0 <= i < |tail| ==> tail[i].1.Present?) ==>
               |rest| == |tail| && forall i :: 0 <= i < |tail| ==> rest[i] == (tail[i].0, tail[i].1.text)
    requires p == match data[0].1
      case Missing => rest
      case Present(t) => [(data[0].0, t)] + rest
    ensures (forall i :: 0 <= i < |data| ==> data[i].1.Present?) ==>
              |p| == |data| && forall i :: 0 <= i < |data| ==> p[i] == (data[i].0, data[i].1.text)
  {
    if forall i :: 0 <= i < |data| ==> data[i].1.Present? {
      assert forall i :: 0 <= i < |tail| ==> tail[i] == data[i + 1];
      forall i | 0 <= i < |data| ensures p[i] == (data[i].0, data[i].1.text) {
        if i > 0 {
          assert p[i] == rest[i - 1] && data[i] == tail[i - 1];
        }
      }
    }
  }

  /** `key=value` with both sides encoded. */
  function EncodePair(key: string, text: string, enc: string -> string): string {
    enc(key) + "=" + enc(text)
  }

  /** `objectToQueryString`: the present entries as encoded `key=value` pairs joined by `&`,
      with no leading `?`. */
  function ObjectToQueryString(data: seq<(string, Datum)>, enc: string -> string): (qs: string)
    ensures qs == "" <==> forall i :: 0 <= i < |data| ==> data[i].1.Missing?
    ensures (forall s :: '&' !in enc(s)) && qs != "" ==>
              Split(qs, '&') == EncodedPairs(PresentEntries(data), enc)
  {
    var parts := EncodedPairs(PresentEntries(data), enc);
    JoinOfPairs(parts);
    SplitEncodedPairs(PresentEntries(data), enc);
    Join(parts, '&')
  }

  /** The entries as encoded `key=value` pieces, in order. */
  function EncodedPairs(p: seq<(string, string)>, enc: string -> string): (parts: seq<string>)
    ensures |parts| == |p|
    ensures forall i :: 0 <= i < |p| ==> parts[i] == EncodePair(p[i].0, p[i].1, enc)
  {
    seq(|p|, i requires 0 <= i < |p| => EncodePair(p[i].0, p[i].1, enc))
  }

  /** When no encoding holds `&`, splitting the joined pieces at `&` gives them back. */
  lemma SplitEncodedPairs(p: seq<(string, string)>, enc: string -> string)
    ensures var parts := EncodedPairs(p, enc);
            (forall s :: '&' !in enc(s)) && |p| > 0 ==> Split(Join(parts, '&'), '&') == parts
  {
    var parts := EncodedPairs(p, enc);
    if (forall s :: '&' !in enc(s)) && |p| > 0 {
      forall i | 0 <= i < |parts| ensures '&' !in parts[i] {
        assert parts[i] == enc(p[i].0) + "=" + enc(p[i].1);
      }
      SplitJoin(parts, '&');
    }
  }

  /** Joined `key=value` pairs are empty exactly when there are none. */
  lemma JoinOfPairs(parts: seq<string>)
    requires forall i :: 0 <= i < |parts| ==> '=' in parts[i]
    ensures Join(parts, '&') == "" <==> |parts| == 0
  {
    if |parts| > 0 {
      JoinKeepsFirst(parts, '&');
      assert |parts[0]| > 0;
    }
  }

  /** The joined text starts with the first part. */
  lemma JoinKeepsFirst(parts: seq<string>, sep: char)
    requires |parts| > 0
    ensures |Join(parts, sep)| >= |parts[0]| && Join(parts, sep)[..|parts[0]|] == parts[0]
  {
    if |parts| > 1 {
      assert Join(parts, sep) == parts[0] + ([sep] + Join(parts[1..], sep));
    }
  }

  /** `let [key, val] = piece.split('=')`: the key is the text before the first `=`, the value
      the text between the first and the second; a piece without `=` has the value
      `undefined`, which decodes to the text `"undefined"`. */
  function SplitPair(piece: string): (kv: (string, string))
    ensures '=' !in kv.0 && '=' !in kv.1
    ensures |kv.0| <= |piece| && piece[..|kv.0|] == kv.0
    ensures '=' !in piece ==> kv == (piece, "undefined")
    ensures '=' in piece ==>
              var end := |kv.0| + 1 + |kv.1|;
              && end <= |piece| && piece[|kv.0|] == '='
              && piece[|kv.0| + 1..end] == kv.1
              && (end == |piece| || piece[end] == '=')
  {
    var parts := Split(piece, '=');
    SplitShape(piece, parts);
    (parts[0], if |parts| > 1 then parts[1] else "undefined")
  }

  /** Where the first part lies in the joined text. */
  lemma JoinFirstPart(parts: seq<string>, sep: char)
    requires |parts| >= 1 && sep !in parts[0]
    ensures var s := Join(parts, sep);
            && |parts[0]| <= |s| && s[..|parts[0]|] == parts[0]
            && (|parts| == 1 ==> s == parts[0] && sep !in s)
            && (|parts| > 1 ==> |parts[0]| < |s| && s[|parts[0]|] == sep && s[|parts[0]| + 1..] == Join(parts[1..], sep))
  {
    JoinKeepsFirst(parts, sep);
    if |parts| > 1 {
      var tail := Join(parts[1..], sep);
      assert Join(parts, sep) == parts[0] + ([sep] + tail);
    }
  }

  /** Where the first two parts lie in the joined text. */
  lemma JoinTwoParts(parts: seq<string>, sep: char)
    requires |parts| > 1 && sep !in parts[0] && sep !in parts[1]
    ensures var s := Join(parts, sep);
            var end := |parts[0]| + 1 + |parts[1]|;
            && end <= |s| && s[|parts[0]|] == sep
            && s[|parts[0]| + 1..end] == parts[1]
            && (end == |s| || s[end] == sep)
  {
    var s := Join(parts, sep);
    JoinFirstPart(parts, sep);
    var start := |parts[0]| + 1;
    var rest := parts[1..];
    var tail := Join(rest, sep);
    assert s[start..] == tail;
    JoinFirstPart(rest, sep);
    assert tail[..|parts[1]|] == parts[1];
  }

  /** Where the first two parts of a split lie in the text. */
  lemma SplitShape(s: string, parts: seq<string>)
    requires parts == Split(s, '=')
    ensures |parts[0]| <= |s| && s[..|parts[0]|] == parts[0]
    ensures |parts| == 1 <==> '=' !in s
    ensures |parts| == 1 ==> parts[0] == s
    ensures |parts| > 1 ==>
              var end := |parts[0]| + 1 + |parts[1]|;
              && end <= |s| && s[|parts[0]|] == '='
              && s[|parts[0]| + 1..end] == parts[1]
              && (end == |s| || s[end] == '=')
  {
    JoinFirstPart(parts, '=');
    if |parts| > 1 {
      JoinTwoParts(parts, '=');
    }
  }

  /** The decoder accepts both the key text and the value text of the piece. */
  predicate PieceDecodable(piece: string, dec: string -> Option<string>) {
    dec(SplitPair(piece).0).Some? && dec(SplitPair(piece).1).Some?
  }

  /** Every piece's key and value text is accepted by the decoder. */
  ghost predicate Decodable(pieces: seq<string>, dec: string -> Option<string>) {
    forall i :: 0 <= i < |pieces| ==> PieceDecodable(pieces[i], dec)
  }

  /** Decodes key and value of every piece, failing on the first text `dec` rejects. */
  function DecodePieces(pieces: seq<string>, dec: string -> Option<string>): (r: Result<seq<(string, string)>>)
    ensures r.Success? <==> Decodable(pieces, dec)
    ensures r.Failure? ==> r.error == MalformedEncoding
    ensures r.Success? ==>
              && |r.value| == |pieces|
              && forall i :: 0 <= i < |pieces| ==>
                   Some(r.value[i].0) == dec(SplitPair(pieces[i]).0) &&
                   Some(r.value[i].1) == dec(SplitPair(pieces[i]).1)
  {
    if |pieces| == 0 then Success([])
    else
      var (k, v) := SplitPair(pieces[0]);
      var tail := DecodePieces(pieces[1..], dec);
      var r := if PieceDecodable(pieces[0], dec) && tail.Success?
        then Success([(dec(k).value, dec(v).value)] + tail.value)
        else Failure(MalformedEncoding);
      DecodePiecesStep(pieces, pieces[1..], dec, k, v, tail, r);
      r
  }

  /** The `DecodePieces` promises carry over from the remaining pieces to all of them. */
  lemma DecodePiecesStep(pieces: seq<string>, more: seq<string>, dec: string -> Option<string>,
                         k: string, v: string,
                         tail: Result<seq<(string, string)>>, r: Result<seq<(string, string)>>)
    requires |pieces| > 0 && more == pieces[1..] && (k, v) == SplitPair(pieces[0])
    requires tail.Success? <==> Decodable(more, dec)
    requires tail.Success? ==>
               && |tail.value| == |more|
               && forall i :: 0 <= i < |more| ==>
                    Some(tail.value[i].0) == dec(SplitPair(more[i]).0) &&
                    Some(tail.value[i].1) == dec(SplitPair(more[i]).1)
    requires r == if PieceDecodable(pieces[0], dec) && tail.Success?
      then Success([(dec(k).value, dec(v).value)] + tail.value)
      else Failure(MalformedEncoding)
    ensures r.Success? <==> Decodable(pieces, dec)
    ensures r.Success? ==>
              && |r.value| == |pieces|
              && forall i :: 0 <= i < |pieces| ==>
                   Some(r.value[i].0) == dec(SplitPair(pieces[i]).0) &&
                   Some(r.value[i].1) == dec(SplitPair(pieces[i]).1)
  {
    DecodableCons(pieces, more, dec);
    if r.Success? {
      forall i | 0 <= i < |pieces|
        ensures Some(r.value[i].0) == dec(SplitPair(pieces[i]).0)
        ensures Some(r.value[i].1) == dec(SplitPair(pieces[i]).1)
      {
        if i > 0 {
          assert r.value[i] == tail.value[i - 1] && pieces[i] == more[i - 1];
        }
      }
    }
  }

  lemma DecodableCons(pieces: seq<string>, more: seq<string>, dec: string -> Option<string>)
    requires |pieces| > 0 && more == pieces[1..]
    ensures Decodable(pieces, dec) <==> PieceDecodable(pieces[0], dec) && Decodable(more, dec)
  {
    if Decodable(pieces, dec) {
      forall i | 0 <= i < |more| ensures PieceDecodable(more[i], dec) {
        assert more[i] == pieces[i + 1];
      }
    }
    if PieceDecodable(pieces[0], dec) && Decodable(more, dec) {
      forall i | 0 <= i < |pieces| ensures PieceDecodable(pieces[i], dec) {
        if i > 0 {
          assert pieces[i] == more[i - 1];
        }
      }
    }
  }

  /** Stores the entries in order, each value coerced, so a later duplicate key wins. */
  function Collect(entries: seq<(string, string)>, isNumeric: NumericTest): (m: map<string, Value>)
    ensures SameKeys(m, entries)
    ensures forall i :: 0 <= i < |entries| && LastWithKey(entries, i) ==>
              entries[i].0 in m && m[entries[i].0] == Coerce(entries[i].1, isNumeric)
    decreases |entries|
  {
    if |entries| == 0 then map[]
    else
      var n := |entries| - 1;
      var m := Collect(entries[..n], isNumeric);
      assert entries == entries[..n] + [entries[n]];
      CollectStep(entries[..n], entries[n], m, isNumeric);
      m[entries[n].0 := Coerce(entries[n].1, isNumeric)]
  }

  /** The map's keys are exactly the keys the entries carry. */
  ghost predicate SameKeys(m: map<string, Value>, entries: seq<(string, string)>) {
    forall k :: k in m <==> exists i :: 0 <= i < |entries| && entries[i].0 == k
  }

  /** No later entry has the same key as entry `i`. */
  predicate LastWithKey(entries: seq<(string, string)>, i: nat)
    requires i < |entries|
  {
    forall j :: i < j < |entries| ==> entries[j].0 != entries[i].0
  }

  /** Storing one more entry over the map of the earlier ones keeps both `Collect`
      promises. */
  lemma CollectStep(prefix: seq<(string, string)>, last: (string, string), m: map<string, Value>, isNumeric: NumericTest)
    requires forall k :: k in m <==> exists i :: 0 <= i < |prefix| && prefix[i].0 == k
    requires forall i :: 0 <= i < |prefix| && LastWithKey(prefix, i) ==>
               prefix[i].0 in m && m[prefix[i].0] == Coerce(prefix[i].1, isNumeric)
    ensures var entries := prefix + [last];
            var m' := m[last.0 := Coerce(last.1, isNumeric)];
            && (forall k :: k in m' <==> exists i :: 0 <= i < |entries| && entries[i].0 == k)
            && (forall i :: 0 <= i < |entries| && LastWithKey(entries, i) ==>
                  entries[i].0 in m' && m'[entries[i].0] == Coerce(entries[i].1, isNumeric))
  {
    var entries := prefix + [last];
    var n := |prefix|;
    var m' := m[last.0 := Coerce(last.1, isNumeric)];
    forall k ensures k in m' <==> exists i :: 0 <= i < |entries| && entries[i].0 == k {
      if k in m' && k != last.0 {
        var i :| 0 <= i < n && prefix[i].0 == k;
        assert entries[i].0 == k;
      }
      if k == last.0 {
        assert entries[n].0 == k;
      }
      if exists i :: 0 <= i < |entries| && entries[i].0 == k {
        var i :| 0 <= i < |entries| && entries[i].0 == k;
        if i < n {
          assert prefix[i].0 == k;
        }
      }
    }
    forall i | 0 <= i < |entries| && LastWithKey(entries, i)
      ensures entries[i].0 in m' && m'[entries[i].0] == Coerce(entries[i].1, isNumeric)
    {
      if i < n {
        assert entries[n].0 != entries[i].0;
        assert entries[i] == prefix[i];
        assert LastWithKey(prefix, i) by {
          forall j | i < j < n ensures prefix[j].0 != prefix[i].0 {
            assert entries[j] == prefix[j];
          }
        }
      }
    }
  }

  /** `queryStringToObject`: `{}` for the empty string; otherwise the `&`-separated pieces
      decoded and collected. A text the decoder rejects makes the whole call fail. */
  function QueryStringToObject(qs: string, dec: string -> Option<string>, isNumeric: NumericTest): (r: Result<map<string, Value>>)
    ensures qs == "" ==> r == Success(map[])
    ensures r.Failure? ==> r.error == MalformedEncoding
    ensures qs != "" ==> (r.Success? <==> Decodable(Split(qs, '&'), dec))
    ensures qs != "" && r.Success? ==>
              var e := DecodePieces(Split(qs, '&'), dec).value;
              && SameKeys(r.value, e)
              && (forall i :: 0 <= i < |e| && LastWithKey(e, i) ==>
                    e[i].0 in r.value && r.value[e[i].0] == Coerce(e[i].1, isNumeric))
  {
    if qs == "" then Success(map[])
    else
      var decoded := DecodePieces(Split(qs, '&'), dec);
      if decoded.Failure? then Failure(decoded.error) else Success(Collect(decoded.value, isNumeric))
  }

  /** The encoders the round trip holds for: an encoding never holds `&` or `=` and decodes
      back to the text, as with `encodeURIComponent` and `decodeURIComponent`. */
  ghost predicate InverseCodec(enc: string -> string, dec: string -> Option<string>) {
    forall s :: '&' !in enc(s) && '=' !in enc(s) && dec(enc(s)) == Some(s)
  }

  /** An encoded pair splits back into its two encoded sides. */
  lemma SplitEncodedPair(a: string, b: string)
    requires '=' !in a && '=' !in b
    ensures SplitPair(a + "=" + b) == (a, b)
  {
    assert a + "=" + b == a + ['='] + b;
    SplitAtFirst(a, '=', b);
    SplitNoSeparator(b, '=');
  }

  /** Decoding the encoded pairs gives back the present entries. */
  lemma DecodeEncodedPairs(p: seq<(string, string)>, enc: string -> string, dec: string -> Option<string>)
    requires InverseCodec(enc, dec)
    ensures DecodePieces(EncodedPairs(p, enc), dec) == Success(p)
  {
    var parts := EncodedPairs(p, enc);
    forall i | 0 <= i < |p|
      ensures SplitPair(parts[i]) == (enc(p[i].0), enc(p[i].1))
    {
      SplitEncodedPair(enc(p[i].0), enc(p[i].1));
    }
    var r := DecodePieces(parts, dec);
    assert r.Success?;
    forall i | 0 <= i < |p| ensures r.value[i] == p[i] {
      assert Some(r.value[i].0) == dec(enc(p[i].0));
    }
    assert r.value == p;
  }

  /** `queryStringToObject(objectToQueryString(data))` holds every present entry, its
      value coerced, the last one winning for a repeated key. */
  lemma QueryStringRoundTrip(data: seq<(string, Datum)>, enc: string -> string, dec: string -> Option<string>, isNumeric: NumericTest)
    requires InverseCodec(enc, dec)
    ensures QueryStringToObject(ObjectToQueryString(data, enc), dec, isNumeric) ==
              Success(Collect(PresentEntries(data), isNumeric))
  {
    var p := PresentEntries(data);
    if |p| > 0 {
      SplitEncodedPairs(p, enc);
      DecodeEncodedPairs(p, enc, dec);
    }
  }

  /** A value handed to `toString`: an array of texts or a single text. */
  datatype Param = Scalar(text: string) | List(items: seq<string>)

  /** The items, each encoded. */
  function EncodeAll(items: seq<string>, enc: string -> string): (r: seq<string>)
    ensures |r| == |items| && forall i :: 0 <= i < |items| ==> r[i] == enc(items[i])
  {
    seq(|items|, i requires 0 <= i < |items| => enc(items[i]))
  }

  /** `toString`: an array becomes its encoded items joined by `,` inside parentheses; any
      other value is just encoded. */
  function ParamToString(p: Param, enc: string -> string): (r: string)
    ensures p.Scalar? ==> r == enc(p.text)
    ensures p.List? ==>
              |r| >= 2 && r[0] == '(' && r[|r| - 1] == ')' &&
              r[1..|r| - 1] == Join(EncodeAll(p.items, enc), ',')
  {
    match p
    case Scalar(t) => enc(t)
    case List(items) => "(" + Join(EncodeAll(items, enc), ',') + ")"
  }

  /** The text inside the parentheses splits back into the encoded items, when there is at
      least one item and no encoding holds a comma. An empty array gives `()`, which reads
      back as one empty item. */
  lemma ListItemsRecoverable(items: seq<string>, enc: string -> string)
    requires |items| > 0
    requires forall i :: 0 <= i < |items| ==> ',' !in enc(items[i])
    ensures var r := ParamToString(List(items), enc);
            Split(r[1..|r| - 1], ',') == EncodeAll(items, enc)
  {
    SplitJoin(EncodeAll(items, enc), ',');
  }

  /** An empty array becomes `()`. */
  lemma EmptyListString(enc: string -> string)
    ensures ParamToString(List([]), enc) == "()"
  {
  }
}
