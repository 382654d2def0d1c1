/**
 * Loading the provider's address ranges (`cloudflare_ips`,
 * cloudflare-in-alexa-top500.go:91-111): the IPv4 and IPv6 bodies are joined
 * with a newline, split on newlines, and every piece is handed to
 * `net.ParseCIDR`, whose network (nil on failure) is appended. The parser is a
 * parameter of the model; a body is absent when its fetch failed.
 */
module Ranges {
  import opened Wrappers
  import opened Membership

  const Newline: char := '\n'

  /** `strings.Split(s, "\n")`: the maximal newline-free pieces, in order; at least one. */
  function Split(s: string): (pieces: seq<string>)
    ensures |pieces| >= 1
  {
    if s == [] then [""]
    else if s[0] == Newline then [""] + Split(s[1..])
    else
      var rest := Split(s[1..]);
      [[s[0]] + rest[0]] + rest[1..]
  }

  /** `strings.Join(pieces, "\n")`. */
  function Join(pieces: seq<string>): string
  {
    if pieces == [] then ""
    else if |pieces| == 1 then pieces[0]
    else pieces[0] + [Newline] + Join(pieces[1..])
  }

  /** The content the source splits: `fmt.Sprintf("%s\n%s", v4, v6)`. */
  function Combine(v4: string, v6: string): string
  {
    v4 + [Newline] + v6
  }

  /** One entry per piece, in order, each the parser's answer for that piece. */
  function Entries(content: string, parse: string -> Option<Net>): seq<Option<Net>>
  {
    var pieces := Split(content);
    seq(|pieces|, i requires 0 <= i < |pieces| => parse(pieces[i]))
  }

  /** Joining the pieces back with newlines reproduces the content. */
  lemma {:induction false} JoinSplit(s: string)
    ensures Join(Split(s)) == s
  {
    if s != [] {
      var rest := Split(s[1..]);
      JoinSplit(s[1..]);
      if s[0] == Newline {
        assert ([""] + rest)[1..] == rest;
      } else if |rest| > 1 {
        assert ([[s[0]] + rest[0]] + rest[1..])[1..] == rest[1..];
      }
    }
  }

  /** No piece holds a newline. */
  lemma {:induction false} SplitPiecesHaveNoNewline(s: string)
    ensures forall i :: 0 <= i < |Split(s)| ==> Newline !in Split(s)[i]
  {
    if s != [] {
      SplitPiecesHaveNoNewline(s[1..]);
    }
  }

  lemma {:induction false} SplitSinglePiece(s: string)
    requires Newline !in s
    ensures Split(s) == [s]
  {
    if s != [] {
      assert s == [s[0]] + s[1..];
      assert Newline !in s[1..];
      SplitSinglePiece(s[1..]);
    }
  }

  /** Splitting text joined at a newline splits each side on its own. */
  lemma {:induction false} SplitAppend(a: string, b: string)
    ensures Split(a + [Newline] + b) == Split(a) + Split(b)
  {
    if a == [] {
      assert a + [Newline] + b == [Newline] + b;
      assert ([Newline] + b)[1..] == b;
    } else {
      assert (a + [Newline] + b)[1..] == a[1..] + [Newline] + b;
      SplitAppend(a[1..], b);
    }
  }

  /** Splitting newline-free pieces joined with newlines gives the pieces back. */
  lemma {:induction false} SplitJoin(pieces: seq<string>)
    requires |pieces| >= 1
    requires forall i :: 0 <= i < |pieces| ==> Newline !in pieces[i]
    ensures Split(Join(pieces)) == pieces
  {
    SplitSinglePiece(pieces[0]);
    if |pieces| > 1 {
      SplitJoin(pieces[1..]);
      SplitAppend(pieces[0], Join(pieces[1..]));
    }
  }

  /** The combined content yields the IPv4 pieces followed by the IPv6 pieces. */
  lemma CombinedPieces(v4: string, v6: string, parse: string -> Option<Net>)
    ensures Split(Combine(v4, v6)) == Split(v4) + Split(v6)
    ensures Entries(Combine(v4, v6), parse) == Entries(v4, parse) + Entries(v6, parse)
  {
    SplitAppend(v4, v6);
  }

  /**
   * A body ending in a newline leaves an empty last piece; when the parser
   * rejects "", that piece still takes a place in the list, as a nil entry.
   */
  lemma TrailingNewlineKeepsNilEntry(v4: string, v6: string, parse: string -> Option<Net>)
    requires parse("") == None
    ensures |Entries(Combine(v4 + [Newline], v6), parse)| == |Split(v4)| + 1 + |Split(v6)|
    ensures Entries(Combine(v4 + [Newline], v6), parse)[|Split(v4)|] == None
  {
    SplitAppend(v4, "");
    SplitAppend(v4 + [Newline], v6);
    assert v4 + [Newline] == v4 + [Newline] + "";
  }

  /** What `cloudflare_ips` ends with: a panic, or the list of entries. */
  datatype RangeLoad = ReadPanic | Loaded(nets: seq<Option<Net>>)

  /**
   * `cloudflare_ips`. A failed fetch leaves a nil body, and `ioutil.ReadAll` of a
   * nil reader panics; otherwise every piece of the combined content gives
   * exactly one entry, in order, present or not.
   */
  method CloudflareIps(v4: Option<string>, v6: Option<string>, parse: string -> Option<Net>)
    returns (load: RangeLoad)
    ensures load.ReadPanic? <==> v4.None? || v6.None?
    ensures load.Loaded? ==>
      var pieces := Split(Combine(v4.value, v6.value));
      |load.nets| == |pieces| &&
      forall i :: 0 <= i < |pieces| ==> load.nets[i] == parse(pieces[i])
    ensures load.Loaded? ==> load.nets == Entries(Combine(v4.value, v6.value), parse)
  {
    if v4.None? || v6.None? {
      return ReadPanic;
    }
    var content := Combine(v4.value, v6.value);
    var pieces := Split(content);
    var nets: seq<Option<Net>> := [];
    var i := 0;
    while i < |pieces|
      invariant i <= |pieces|
      invariant |nets| == i
      invariant forall k :: 0 <= k < i ==> nets[k] == parse(pieces[k])
    {
      nets := nets + [parse(pieces[i])];
      i := i + 1;
    }
    load := Loaded(nets);
  }

  // ---------------------------------------------------------------------------
  // Skipping the pieces that do not parse
  // ---------------------------------------------------------------------------

  /** The present entries, in order: the list with the unparsed pieces dropped. */
  function SkipUnparsed(entries: seq<Option<Net>>): seq<Option<Net>>
  {
    if entries == [] then []
    else if entries[0].None? then SkipUnparsed(entries[1..])
    else [entries[0]] + SkipUnparsed(entries[1..])
  }

  lemma {:induction false} SkipUnparsedKeepsHits(entries: seq<Option<Net>>, ips: seq<IP>)
    ensures AllPresent(SkipUnparsed(entries))
    ensures AnyContains(SkipUnparsed(entries), ips) <==> AnyContains(entries, ips)
  {
    if entries != [] {
      var rest := SkipUnparsed(entries[1..]);
      SkipUnparsedKeepsHits(entries[1..], ips);
      AnyContainsCons(entries, ips);
      if entries[0].Some? {
        var kept := [entries[0]] + rest;
        assert kept[1..] == rest;
        AnyContainsCons(kept, ips);
      }
    }
  }

  /**
   * With unparsed pieces dropped, the membership test never meets a nil
   * network and answers whether some parsed network contains some address.
   */
  lemma SkipUnparsedNeverPanics(entries: seq<Option<Net>>, ips: seq<IP>)
    ensures Scan(SkipUnparsed(entries), ips) != NilNet
    ensures Scan(SkipUnparsed(entries), ips) == Match <==> AnyContains(entries, ips)
  {
    SkipUnparsedKeepsHits(entries, ips);
    ScanIsExists(SkipUnparsed(entries), ips);
  }

  /**
   * As written: two empty bodies give two empty pieces; when the parser
   * rejects "", both entries are nil and the first address tried panics.
   */
  lemma EmptyBodiesPanicMembership(parse: string -> Option<Net>, ips: seq<IP>)
    requires parse("") == None && ips != []
    ensures Entries(Combine("", ""), parse) == [None, None]
    ensures Scan(Entries(Combine("", ""), parse), ips) == NilNet
  {
    SplitAppend("", "");
  }
}
