/** The form parser of OAuth2ValidatorTest: `decodeForm`, `decodePercent` and `isEmpty`.
 *
 *  A form (an application/x-www-form-urlencoded string, or null) is split on '&'
 *  the way Java's `String.split("\\&")` does it, every segment is cut at its first
 *  '=' and both halves are percent-decoded. The percent-decoder itself
 *  (`java.net.URLDecoder.decode(s, "UTF-8")`) is a library routine and is kept
 *  abstract: every operation takes it as a `Decoder` argument.
 */
module FormDecoding {
  import opened Wrappers

  /** `OAuth2.Parameter`: a name and a value that is null when the segment had no '='. */
  datatype Parameter = Parameter(name: string, value: Option<string>)

  /** The percent-decoder, `decodePercent`; total on strings. */
  type Decoder = string -> string

  const Ampersand: char := '&'
  const EqualsSign: char := '='

  /** `isEmpty`: a null string or one of length zero. */
  predicate IsEmpty(str: Option<string>)
  {
    str.None? || |str.value| == 0
  }

  /** `String.indexOf(char)`: the first position of `c` in `s`, or -1 when there is none. */
  function IndexOf(s: string, c: char): (r: int)
    ensures -1 <= r < |s|
    ensures r == -1 <==> c !in s
    ensures 0 <= r ==> s[r] == c && c !in s[..r]
  {
    if |s| == 0 then -1
    else if s[0] == c then 0
    else
      var k := IndexOf(s[1..], c);
      if k < 0 then -1
      else
        assert s[..k + 1] == [s[0]] + s[1..][..k];
        k + 1
  }

  /** The segments are glued back together with one separator between neighbours. */
  function Join(segs: seq<string>, sep: char): string
  {
    if |segs| == 0 then ""
    else if |segs| == 1 then segs[0]
    else segs[0] + [sep] + Join(segs[1..], sep)
  }

  /** Every piece of `s` between separators, empty pieces included, in order. */
  function SplitAll(s: string, sep: char): (r: seq<string>)
    ensures |r| >= 1
    ensures forall k :: 0 <= k < |r| ==> sep !in r[k]
    decreases |s|
  {
    var i := IndexOf(s, sep);
    if i < 0 then [s] else [s[..i]] + SplitAll(s[i + 1..], sep)
  }

  /** The longest prefix of `segs` that does not end with an empty string. */
  function DropTrailingEmpty(segs: seq<string>): (r: seq<string>)
    ensures |r| <= |segs| && r == segs[..|r|]
    ensures r == [] || r[|r| - 1] != ""
    ensures forall k :: |r| <= k < |segs| ==> segs[k] == ""
  {
    if |segs| == 0 then []
    else if segs[|segs| - 1] == "" then DropTrailingEmpty(segs[..|segs| - 1])
    else segs
  }

  /** Java's `s.split(sep)` for a one-character, non-regex separator (limit 0):
   *  no occurrence gives `[s]`; otherwise all pieces with trailing empty ones removed. */
  function Split(s: string, sep: char): (r: seq<string>)
    ensures sep !in s ==> r == [s]
    ensures sep in s ==> |r| <= |SplitAll(s, sep)| && r == SplitAll(s, sep)[..|r|]
    ensures sep in s ==> r == [] || r[|r| - 1] != ""
    ensures sep in s ==> forall k :: |r| <= k < |SplitAll(s, sep)| ==> SplitAll(s, sep)[k] == ""
    ensures forall k :: 0 <= k < |r| ==> sep !in r[k]
  {
    if sep !in s then [s] else DropTrailingEmpty(SplitAll(s, sep))
  }

  /** One `name[=value]` segment: cut at the first '=', decode both halves; no '=' means a null value. */
  function DecodeSegment(nvp: string, decode: Decoder): (p: Parameter)
    ensures p.value.None? <==> EqualsSign !in nvp
    ensures p.value.None? ==> p.name == decode(nvp)
  {
    var equals := IndexOf(nvp, EqualsSign);
    if equals < 0 then Parameter(decode(nvp), None)
    else Parameter(decode(nvp[..equals]), Some(decode(nvp[equals + 1..])))
  }

  /** The segments, decoded one by one, in order. */
  function DecodeSegments(segs: seq<string>, decode: Decoder): seq<Parameter>
  {
    seq(|segs|, i requires 0 <= i < |segs| => DecodeSegment(segs[i], decode))
  }

  /** What `decodeForm` returns: nothing for an empty or null form, otherwise one
   *  parameter per segment that `split` yields. */
  function DecodeFormSpec(form: Option<string>, decode: Decoder): seq<Parameter>
  {
    if IsEmpty(form) then [] else DecodeSegments(Split(form.value, Ampersand), decode)
  }

  /** `decodeForm`: builds the list in place, one `add` per segment. */
  method DecodeForm(form: Option<string>, decode: Decoder) returns (list: seq<Parameter>)
    ensures list == DecodeFormSpec(form, decode)
  {
    list := [];
    if !IsEmpty(form) {
      var segments := Split(form.value, Ampersand);
      for k := 0 to |segments|
        invariant |list| == k
        invariant forall j :: 0 <= j < k ==> list[j] == DecodeSegment(segments[j], decode)
      {
        var nvp := segments[k];
        var equals := IndexOf(nvp, EqualsSign);
        var name: string;
        var value: Option<string>;
        if equals < 0 {
          name := decode(nvp);
          value := None;
        } else {
          name := decode(nvp[..equals]);
          value := Some(decode(nvp[equals + 1..]));
        }
        list := list + [Parameter(name, value)];
      }
    }
  }

  // ---------------------------------------------------------------------------
  // Properties of the parser
  // ---------------------------------------------------------------------------

  /** The first separator of `a + [c] + b` is the one after `a` when `a` has none. */
  lemma IndexOfAfterPrefix(a: string, b: string, c: char)
    requires c !in a
    ensures IndexOf(a + [c] + b, c) == |a|
  {
    var s := a + [c] + b;
    var r := IndexOf(s, c);
    assert s[|a|] == c;
    assert s[..|a|] == a;
  }

  /** Gluing a segment in front of a non-empty list adds one separator after it. */
  lemma JoinCons(head: string, rest: seq<string>, sep: char)
    requires |rest| >= 1
    ensures Join([head] + rest, sep) == head + [sep] + Join(rest, sep)
  {
    var segs := [head] + rest;
    assert segs[0] == head && segs[1..] == rest;
  }

  /** A string is the part before position `i`, the character there, and the rest. */
  lemma SplitAround(s: string, i: int)
    requires 0 <= i < |s|
    ensures s == s[..i] + [s[i]] + s[i + 1..]
  {
  }

  /** Where the separator occurs, the first piece is everything before its first occurrence. */
  lemma SplitAllStep(s: string, sep: char)
    requires sep in s
    ensures SplitAll(s, sep) == [s[..IndexOf(s, sep)]] + SplitAll(s[IndexOf(s, sep) + 1..], sep)
  {
  }

  /** Joining the pieces gives the string back. */
  lemma {:induction false} JoinSplit(s: string, sep: char)
    ensures Join(SplitAll(s, sep), sep) == s
    decreases |s|
  {
    var i := IndexOf(s, sep);
    if i >= 0 {
      var head, tail := s[..i], s[i + 1..];
      SplitAllStep(s, sep);
      JoinSplit(tail, sep);
      JoinCons(head, SplitAll(tail, sep), sep);
      SplitAround(s, i);
    }
  }

  /** Splitting the joined segments gives the segments back when none holds the separator. */
  lemma {:induction false} SplitJoin(segs: seq<string>, sep: char)
    requires |segs| >= 1
    requires forall k :: 0 <= k < |segs| ==> sep !in segs[k]
    ensures SplitAll(Join(segs, sep), sep) == segs
  {
    if |segs| > 1 {
      var head, rest := segs[0], segs[1..];
      var tail := Join(rest, sep);
      var s := head + [sep] + tail;
      assert Join(segs, sep) == s;
      IndexOfAfterPrefix(head, tail, sep);
      assert s[..|head|] == head;
      assert s[|head| + 1..] == tail;
      assert SplitAll(s, sep) == [head] + SplitAll(tail, sep);
      SplitJoin(rest, sep);
      assert segs == [head] + rest;
    }
  }

  /** A separator appended to `s` adds exactly one empty piece at the end. */
  lemma SplitAllAppendSeparator(s: string, sep: char)
    ensures SplitAll(s + [sep], sep) == SplitAll(s, sep) + [""]
  {
    var pieces := SplitAll(s, sep);
    JoinSplit(s, sep);
    JoinSnoc(pieces, "", sep);
    assert Join(pieces + [""], sep) == s + [sep];
    SplitJoin(pieces + [""], sep);
  }

  /** Each character of each segment occurs in the joined string. */
  lemma {:induction false} JoinContains(segs: seq<string>, sep: char, k: nat, j: nat)
    requires k < |segs| && j < |segs[k]|
    ensures segs[k][j] in Join(segs, sep)
  {
    if |segs| > 1 {
      var s := Join(segs, sep);
      assert s == segs[0] + [sep] + Join(segs[1..], sep);
      if k == 0 {
        assert s[j] == segs[0][j];
      } else {
        JoinContains(segs[1..], sep, k - 1, j);
        var tail := Join(segs[1..], sep);
        var t :| 0 <= t < |tail| && tail[t] == segs[k][j];
        assert s[|segs[0]| + 1 + t] == tail[t];
      }
    }
  }

  /** Joining empty segments leaves only separators. */
  lemma {:induction false} JoinOfEmptySegments(segs: seq<string>, sep: char)
    requires forall k :: 0 <= k < |segs| ==> segs[k] == ""
    ensures forall i :: 0 <= i < |Join(segs, sep)| ==> Join(segs, sep)[i] == sep
  {
    if |segs| > 1 {
      JoinOfEmptySegments(segs[1..], sep);
      assert Join(segs, sep) == [sep] + Join(segs[1..], sep);
    }
  }

  /** A segment glued after the others adds a separator and the segment at the end. */
  lemma {:induction false} JoinSnoc(segs: seq<string>, x: string, sep: char)
    requires |segs| >= 1
    ensures Join(segs + [x], sep) == Join(segs, sep) + [sep] + x
  {
    if |segs| > 1 {
      assert (segs + [x])[1..] == segs[1..] + [x];
      JoinSnoc(segs[1..], x, sep);
    }
  }

  /** A null or empty form yields no parameter; so does a form made only of '&'
   *  (Java's `split` drops every trailing empty piece); any other form yields at least one. */
  lemma DecodeFormEmptyIff(form: Option<string>, decode: Decoder)
    ensures DecodeFormSpec(form, decode) == [] <==>
      IsEmpty(form) || forall i :: 0 <= i < |form.value| ==> form.value[i] == Ampersand
  {
    if !IsEmpty(form) {
      var s := form.value;
      var pieces := SplitAll(s, Ampersand);
      if forall i :: 0 <= i < |s| ==> s[i] == Ampersand {
        assert Ampersand in s by { assert s[0] == Ampersand; }
        JoinSplit(s, Ampersand);
        forall k | 0 <= k < |pieces|
          ensures pieces[k] == ""
        {
          if pieces[k] != "" {
            JoinContains(pieces, Ampersand, k, 0);
          }
        }
      } else if Ampersand in s {
        var r := DropTrailingEmpty(pieces);
        if r == [] {
          JoinSplit(s, Ampersand);
          JoinOfEmptySegments(pieces, Ampersand);
        }
      }
    }
  }

  /** One parameter per segment, in input order: a form glued from segments without '&'
   *  whose last one is non-empty decodes segment by segment. Leading and middle empty
   *  segments are kept, each as a parameter with the decoded empty name and no value. */
  lemma OnePerSegment(segs: seq<string>, decode: Decoder)
    requires |segs| >= 1
    requires forall k :: 0 <= k < |segs| ==> Ampersand !in segs[k]
    requires segs[|segs| - 1] != ""
    ensures DecodeFormSpec(Some(Join(segs, Ampersand)), decode) == DecodeSegments(segs, decode)
  {
    var s := Join(segs, Ampersand);
    JoinContains(segs, Ampersand, |segs| - 1, 0);
    assert !IsEmpty(Some(s));
    SplitJoin(segs, Ampersand);
    if |segs| > 1 {
      assert s == segs[0] + [Ampersand] + Join(segs[1..], Ampersand);
      assert s[|segs[0]|] == Ampersand;
    } else {
      assert Ampersand !in s;
    }
  }

  /** A trailing '&' adds no parameter. */
  lemma TrailingAmpersandIgnored(s: string, decode: Decoder)
    ensures DecodeFormSpec(Some(s + [Ampersand]), decode) == DecodeFormSpec(Some(s), decode)
  {
    SplitAllAppendSeparator(s, Ampersand);
    var pieces := SplitAll(s, Ampersand);
    assert (pieces + [""])[..|pieces|] == pieces;
    assert (s + [Ampersand])[|s|] == Ampersand;
    if |s| > 0 && Ampersand !in s {
      assert pieces == [s];
    }
  }

  /** A segment is cut at its FIRST '=': the name is everything before it, the value
   *  everything after it, later '=' included. */
  lemma SplitsAtFirstEquals(name: string, value: string, decode: Decoder)
    requires EqualsSign !in name
    ensures DecodeSegment(name + [EqualsSign] + value, decode) == Parameter(decode(name), Some(decode(value)))
  {
    IndexOfAfterPrefix(name, value, EqualsSign);
    var nvp := name + [EqualsSign] + value;
    assert nvp[..|name|] == name;
    assert nvp[|name| + 1..] == value;
  }

  // ---------------------------------------------------------------------------
  // Encoding, the inverse of the parser
  // ---------------------------------------------------------------------------

  /** The percent-encoder paired with a `Decoder`. */
  type Encoder = string -> string

  /** `name` or `name=value`, both halves encoded. */
  function EncodeSegment(p: Parameter, encode: Encoder): string
  {
    encode(p.name) + if p.value.Some? then [EqualsSign] + encode(p.value.value) else ""
  }

  /** The encoded segments, in order. */
  function EncodeSegments(ps: seq<Parameter>, encode: Encoder): seq<string>
  {
    seq(|ps|, i requires 0 <= i < |ps| => EncodeSegment(ps[i], encode))
  }

  /** The parameters encoded and joined with '&'. */
  function EncodeForm(ps: seq<Parameter>, encode: Encoder): string
  {
    Join(EncodeSegments(ps, encode), Ampersand)
  }

  /** `encode` produces no separator for `p` and `decode` undoes it on both halves. */
  predicate Encodable(p: Parameter, encode: Encoder, decode: Decoder)
  {
    && Ampersand !in encode(p.name)
    && EqualsSign !in encode(p.name)
    && decode(encode(p.name)) == p.name
    && (p.value.Some? ==>
          Ampersand !in encode(p.value.value) && decode(encode(p.value.value)) == p.value.value)
  }

  /** One encodable parameter survives the trip through its own segment. */
  lemma SegmentRoundTrip(p: Parameter, encode: Encoder, decode: Decoder)
    requires Encodable(p, encode, decode)
    ensures Ampersand !in EncodeSegment(p, encode)
    ensures DecodeSegment(EncodeSegment(p, encode), decode) == p
  {
    var name := encode(p.name);
    if p.value.Some? {
      var value := encode(p.value.value);
      assert EncodeSegment(p, encode) == name + [EqualsSign] + value;
      SplitsAtFirstEquals(name, value, decode);
    } else {
      assert EncodeSegment(p, encode) == name;
    }
  }

  /** Round trip: decoding the encoded form gives the parameters back, provided the last
   *  one does not encode to the empty segment (which `split` would drop). */
  lemma RoundTrip(ps: seq<Parameter>, encode: Encoder, decode: Decoder)
    requires forall i :: 0 <= i < |ps| ==> Encodable(ps[i], encode, decode)
    requires ps != [] ==> EncodeSegment(ps[|ps| - 1], encode) != ""
    ensures DecodeFormSpec(Some(EncodeForm(ps, encode)), decode) == ps
  {
    if ps != [] {
      var segs := EncodeSegments(ps, encode);
      forall k | 0 <= k < |segs|
        ensures Ampersand !in segs[k] && DecodeSegment(segs[k], decode) == ps[k]
      {
        SegmentRoundTrip(ps[k], encode, decode);
      }
      OnePerSegment(segs, decode);
      var out := DecodeSegments(segs, decode);
      assert |out| == |ps|;
      assert forall k :: 0 <= k < |ps| ==> out[k] == ps[k];
    }
  }

  /** Where the round trip stops: a final parameter with an empty name and no value
   *  (encoded as the empty segment) is lost, because a trailing '&' adds nothing. */
  lemma TrailingValuelessParameterLost(ps: seq<Parameter>, encode: Encoder, decode: Decoder)
    requires encode("") == ""
    ensures DecodeFormSpec(Some(EncodeForm(ps + [Parameter("", None)], encode)), decode)
         == DecodeFormSpec(Some(EncodeForm(ps, encode)), decode)
  {
    var last := Parameter("", None);
    var segs := EncodeSegments(ps, encode);
    var form := EncodeForm(ps, encode);
    var segs' := EncodeSegments(ps + [last], encode);
    assert EncodeSegment(last, encode) == "";
    assert segs' == segs + [""];
    if ps != [] {
      JoinSnoc(segs, "", Ampersand);
      assert EncodeForm(ps + [last], encode) == form + [Ampersand];
      TrailingAmpersandIgnored(form, decode);
    } else {
      assert EncodeForm(ps + [last], encode) == "";
    }
  }
}
