/** Canonical ids of nodes and connections (`normalization.py`, `domain.py`). */
module Identifiers {
  import opened Basics
  import opened Texts
  import Consolidation

  type Network = Consolidation.Network
  type NodeId = Consolidation.NodeId

  datatype IdError = NoPrefix | UnknownNetwork | BadSourceId

  // ------------------------------------------------------------ characters

  predicate Hex(c: char) {
    '0' <= c <= '9' || 'a' <= c <= 'f' || 'A' <= c <= 'F'
  }

  predicate AllHex(s: string) {
    forall i :: 0 <= i < |s| ==> Hex(s[i])
  }

  function LowerChar(c: char): char {
    if 'A' <= c <= 'Z' then (c as int + 32) as char else c
  }

  /** `str.lower` */
  function Lower(s: string): (r: string)
    ensures |r| == |s|
  {
    seq(|s|, i requires 0 <= i < |s| => LowerChar(s[i]))
  }

  lemma LowerOnce(s: string)
    ensures Lower(Lower(s)) == Lower(s)
    ensures AllHex(s) <==> AllHex(Lower(s))
  {
    if AllHex(Lower(s)) {
      forall i | 0 <= i < |s| ensures Hex(s[i]) {
        assert Hex(Lower(s)[i]);
      }
    }
  }

  // ------------------------------------------------------------ node ids

  /** The text without one exclamation mark in front. */
  function Digits(s: string): string {
    if s != "" && s[0] == '!' then s[1..] else s
  }

  /** `normalize_meshtastic_id`, of a text */
  function MeshtasticId(value: string): Result<string, IdError> {
    var digits := Digits(Strip(value));
    if |digits| == 8 && AllHex(digits) then Ok("!" + Lower(digits)) else Err(BadSourceId)
  }

  /** `normalize_meshcore_id` */
  function MeshcoreId(value: string): Result<string, IdError> {
    var candidate := Strip(value);
    if candidate == "" || |candidate| > 256 then Err(BadSourceId)
    else if exists i :: 0 <= i < |candidate| && Blank(candidate[i]) then Err(BadSourceId)
    else if AllHex(candidate) then Ok(Lower(candidate))
    else Ok(candidate)
  }

  /** `canonical_node_id` */
  function CanonicalNodeId(network: string, sourceId: string): Result<NodeId, IdError> {
    var name := Lower(Strip(network));
    if name == "meshtastic" then
      var r := MeshtasticId(sourceId);
      if r.Ok? then Ok(Consolidation.NodeId(Consolidation.Meshtastic, r.value)) else Err(r.error)
    else if name == "meshcore" then
      var r := MeshcoreId(sourceId);
      if r.Ok? then Ok(Consolidation.NodeId(Consolidation.MeshCore, r.value)) else Err(r.error)
    else Err(UnknownNetwork)
  }

  /** An id as `canonical_node_id` gives it. */
  predicate Canonical(id: NodeId) {
    CanonicalNodeId(Consolidation.NetworkName(id.network), id.sourceId) == Ok(id)
  }

  /** `str.split(":", 1)`: where the first colon is. */
  function FirstColon(s: string): (r: Option<nat>)
    ensures r.Some? ==> r.value < |s| && s[r.value] == ':' && ':' !in s[..r.value]
    ensures r.None? ==> ':' !in s
  {
    if s == "" then None
    else if s[0] == ':' then Some(0)
    else
      var rest := FirstColon(s[1..]);
      assert s == [s[0]] + s[1..];
      if rest.Some? then
        assert s[..rest.value + 1] == [s[0]] + s[1..][..rest.value];
        Some(rest.value + 1)
      else None
  }

  /** How a canonical id is read from a text. */
  function ParseNodeId(text: string): Result<NodeId, IdError> {
    var candidate := Strip(text);
    var colon := FirstColon(candidate);
    if colon.None? then Err(NoPrefix)
    else CanonicalNodeId(candidate[..colon.value], candidate[colon.value + 1..])
  }

  lemma MeshtasticOnce(value: string)
    requires MeshtasticId(value).Ok?
    ensures var id := MeshtasticId(value).value;
            MeshtasticId(id) == Ok(id) && |id| == 9 && ':' !in id && !Blank(id[8])
  {
    var digits := Digits(Strip(value));
    var id := MeshtasticId(value).value;
    LowerOnce(digits);
    forall i | 0 < i < |id| ensures Hex(id[i]) {
      assert id[i] == Lower(digits)[i - 1];
    }
    assert id[0] == '!' && Hex(id[8]);
    StripKeeps(id);
    assert Digits(id) == Lower(digits);
  }

  lemma MeshcoreOnce(value: string)
    requires MeshcoreId(value).Ok?
    ensures var id := MeshcoreId(value).value;
            MeshcoreId(id) == Ok(id) && id != "" && !Blank(id[|id| - 1])
  {
    var candidate := Strip(value);
    var id := MeshcoreId(value).value;
    LowerOnce(candidate);
    forall i | 0 <= i < |id| ensures !Blank(id[i]) {
      assert !Blank(candidate[i]);
    }
    StripKeeps(id);
  }

  lemma NetworkNames(n: Network)
    ensures Lower(Strip(Consolidation.NetworkName(n))) == Consolidation.NetworkName(n)
    ensures ':' !in Consolidation.NetworkName(n)
  {
    StripKeeps(Consolidation.NetworkName(n));
  }

  /** Whatever it was made from, a canonical id is left as it is when it is made canonical again. */
  lemma CanonicalOnce(network: string, sourceId: string)
    requires CanonicalNodeId(network, sourceId).Ok?
    ensures Canonical(CanonicalNodeId(network, sourceId).value)
  {
    var id := CanonicalNodeId(network, sourceId).value;
    NetworkNames(id.network);
    if id.network.Meshtastic? {
      MeshtasticOnce(sourceId);
    } else {
      MeshcoreOnce(sourceId);
    }
  }

  lemma {:induction false} ColonEndsPrefix(prefix: string, rest: string)
    requires ':' !in prefix
    ensures FirstColon(prefix + (":" + rest)) == Some(|prefix|)
  {
    var s := prefix + (":" + rest);
    if prefix != "" {
      assert s[0] == prefix[0];
      assert s[1..] == prefix[1..] + (":" + rest);
      ColonEndsPrefix(prefix[1..], rest);
    }
  }

  lemma SourceIdEndsWell(id: NodeId)
    requires Canonical(id)
    ensures id.sourceId != "" && !Blank(id.sourceId[|id.sourceId| - 1])
  {
    NetworkNames(id.network);
    if id.network.Meshtastic? {
      MeshtasticOnce(id.sourceId);
    } else {
      MeshcoreOnce(id.sourceId);
    }
  }

  lemma TextIsStripped(id: NodeId)
    requires Canonical(id)
    ensures Strip(id.Text()) == id.Text()
  {
    var text := id.Text();
    SourceIdEndsWell(id);
    assert text[0] == 'm' && text[|text| - 1] == id.sourceId[|id.sourceId| - 1];
    StripKeeps(text);
  }

  /** The text of a canonical id is read as that id. */
  lemma ParseOfText(id: NodeId)
    requires Canonical(id)
    ensures ParseNodeId(id.Text()) == Ok(id)
  {
    var name, text := Consolidation.NetworkName(id.network), id.Text();
    TextIsStripped(id);
    NetworkNames(id.network);
    ColonEndsPrefix(name, id.sourceId);
    assert text[..|name|] == name && text[|name| + 1..] == id.sourceId;
  }

  // ------------------------------------------------------------ connection ids

  datatype EdgeKind = Neighbor | Traceroute | Observed | Unknown

  function KindName(k: EdgeKind): string {
    match k
    case Neighbor => "neighbor"
    case Traceroute => "traceroute"
    case Observed => "observed"
    case Unknown => "unknown"
  }

  /** What the two ends of a connection are called. */
  datatype Ends = Ends(network: Network, from: string, to: string)

  function Joined(from: string, to: string): string {
    from + (":" + to)
  }

  /** `EdgeObservation.id` */
  function EdgeId(kind: EdgeKind, e: Ends): string {
    Joined(Consolidation.NetworkName(e.network), Joined(KindName(kind), Joined(e.from, e.to)))
  }

  /** The second pair has moved a part of `to` that ends in a colon over to `from`. */
  predicate Shifted(f: string, g: string, f': string, g': string) {
    && |f| < |f'| && f' == Joined(f, f'[|f| + 1..])
    && g == Joined(f'[|f| + 1..], g')
  }

  lemma JoinedAgree(f: string, g: string, f': string, g': string)
    requires |f| <= |f'|
    ensures Joined(f, g) == Joined(f', g') <==> (f == f' && g == g') || Shifted(f, g, f', g')
  {
    var s, s' := Joined(f, g), Joined(f', g');
    if s == s' {
      assert f' == s'[..|f'|] == s[..|f'|];
      assert g' == s'[|f'| + 1..] && g == s[|f| + 1..];
      if |f| == |f'| {
        assert f == s[..|f|];
      } else {
        var m := f'[|f| + 1..];
        assert f'[..|f|] == f && f'[|f|] == s[|f|] == ':';
        assert f' == Joined(f, m);
        assert s[|f| + 1..] == Joined(m, g');
      }
    }
    if Shifted(f, g, f', g') {
      var m := f'[|f| + 1..];
      assert f + (":" + (m + (":" + g'))) == (f + (":" + m)) + (":" + g');
    }
  }

  lemma ShiftedHasColon(f: string, g: string, f': string, g': string)
    requires Shifted(f, g, f', g')
    ensures ':' in f'
  {
    assert f'[|f|] == ':';
  }

  /** Before the first colon nothing can move. */
  lemma PlainJoined(f: string, g: string, f': string, g': string)
    requires ':' !in f && ':' !in f'
    ensures Joined(f, g) == Joined(f', g') <==> f == f' && g == g'
  {
    if Shifted(f, g, f', g') {
      ShiftedHasColon(f, g, f', g');
    }
    if Shifted(f', g', f, g) {
      ShiftedHasColon(f', g', f, g);
    }
    JoinedEitherWay(f, g, f', g');
  }

  lemma NetworkNameTells(m: Network, n: Network)
    ensures Consolidation.NetworkName(m) == Consolidation.NetworkName(n) <==> m == n
  {
    if m != n {
      assert Consolidation.NetworkName(m)[4] != Consolidation.NetworkName(n)[4];
    }
  }

  lemma KindNameTells(j: EdgeKind, k: EdgeKind)
    ensures KindName(j) == KindName(k) <==> j == k
    ensures ':' !in KindName(j)
  {
    if j != k {
      assert KindName(j)[0] != KindName(k)[0];
    }
  }

  /** Two connections have one id exactly when network, type and ends agree, or when they differ only in
      where, at a colon, the source id of the one end stops and that of the other begins. */
  lemma EdgeIdsAgreeIff(j: EdgeKind, e: Ends, k: EdgeKind, f: Ends)
    ensures EdgeId(j, e) == EdgeId(k, f)
       <==> && j == k && e.network == f.network
            && (e == f || Shifted(e.from, e.to, f.from, f.to) || Shifted(f.from, f.to, e.from, e.to))
  {
    NetworkNames(e.network);
    NetworkNames(f.network);
    NetworkNameTells(e.network, f.network);
    KindNameTells(j, k);
    KindNameTells(k, j);
    PlainJoined(Consolidation.NetworkName(e.network), Joined(KindName(j), Joined(e.from, e.to)),
                Consolidation.NetworkName(f.network), Joined(KindName(k), Joined(f.from, f.to)));
    PlainJoined(KindName(j), Joined(e.from, e.to), KindName(k), Joined(f.from, f.to));
    JoinedEitherWay(e.from, e.to, f.from, f.to);
  }

  lemma JoinedEitherWay(f: string, g: string, f': string, g': string)
    ensures Joined(f, g) == Joined(f', g') <==> (f == f' && g == g') || Shifted(f, g, f', g') || Shifted(f', g', f, g)
  {
    if |f| <= |f'| {
      JoinedAgree(f, g, f', g');
    } else {
      JoinedAgree(f', g', f, g);
    }
  }

  /** Without colons in the first end, as in every Meshtastic id, the id determines the connection. */
  lemma EdgeIdIsUnambiguous(j: EdgeKind, e: Ends, k: EdgeKind, f: Ends)
    requires ':' !in e.from && ':' !in f.from
    ensures EdgeId(j, e) == EdgeId(k, f) <==> j == k && e == f
  {
    EdgeIdsAgreeIff(j, e, k, f);
    JoinedEitherWay(e.from, e.to, f.from, f.to);
    PlainJoined(e.from, e.to, f.from, f.to);
  }

  // ------------------------------------------------------------ ids in plain terms

  /** A hexadecimal digit, and the same digit with a small letter. */
  predicate SmallDigit(given: char, small: char) {
    || (given == small && ('0' <= small <= '9' || 'a' <= small <= 'f'))
    || ('A' <= given <= 'F' && small as int == given as int + 32)
  }

  predicate SmallDigits(given: string, small: string) {
    |given| == |small| && forall i :: 0 <= i < |small| ==> SmallDigit(given[i], small[i])
  }

  lemma LowerOfHex(given: string, small: string)
    ensures SmallDigits(given, small) <==> AllHex(given) && small == Lower(given)
  {
    if SmallDigits(given, small) {
      forall i | 0 <= i < |given| ensures Hex(given[i]) && small[i] == LowerChar(given[i]) {
        assert SmallDigit(given[i], small[i]);
      }
    }
    if AllHex(given) && small == Lower(given) {
      forall i | 0 <= i < |small| ensures SmallDigit(given[i], small[i]) {
        assert Hex(given[i]);
      }
    }
  }

  /** A Meshtastic id is an exclamation mark and eight hexadecimal digits, written small; the mark may be missing
      in what is given, and blanks around it do not count. */
  lemma {:induction false} MeshtasticIdIs(value: string, id: string)
    ensures MeshtasticId(value) == Ok(id)
       <==> && |id| == 9 && id[0] == '!'
            && exists given :: && (Strip(value) == given || Strip(value) == "!" + given)
                               && |given| == 8 && SmallDigits(given, id[1..])
  {
    var digits := Digits(Strip(value));
    if MeshtasticId(value) == Ok(id) {
      assert id[1..] == Lower(digits);
      LowerOfHex(digits, id[1..]);
    }
    if |id| == 9 && id[0] == '!' {
      if given :| (Strip(value) == given || Strip(value) == "!" + given) && |given| == 8 && SmallDigits(given, id[1..])
      {
        assert SmallDigit(given[0], id[1..][0]);
        assert given[0] != '!';
        if Strip(value) == "!" + given {
          assert Strip(value)[1..] == given;
        }
        assert digits == given;
        LowerOfHex(given, id[1..]);
        assert id == "!" + id[1..];
      }
    }
  }

  /** A MeshCore id is 1 to 256 characters without blanks; one of hexadecimal digits alone is written small. */
  lemma {:induction false} MeshcoreIdIs(value: string, id: string)
    ensures MeshcoreId(value) == Ok(id)
       <==> && 1 <= |Strip(value)| <= 256
            && (forall c :: c in Strip(value) ==> !Blank(c))
            && (SmallDigits(Strip(value), id) || (id == Strip(value) && exists c :: c in id && !Hex(c)))
  {
    var given := Strip(value);
    LowerOfHex(given, id);
    if MeshcoreId(value) == Ok(id) && !AllHex(given) {
      var i :| 0 <= i < |given| && !Hex(given[i]);
      assert given[i] in id;
    }
    if AllHex(given) {
      forall c | c in given ensures Hex(c) {
        var i :| 0 <= i < |given| && given[i] == c;
      }
    }
    if forall c :: c in given ==> !Blank(c) {
      forall i | 0 <= i < |given| ensures !Blank(given[i]) {
        assert given[i] in given;
      }
    }
    if MeshcoreId(value).Ok? {
      forall c | c in given ensures !Blank(c) {
        var i :| 0 <= i < |given| && given[i] == c;
      }
    }
  }

  /** What letters are written small. */
  lemma SmallLetters(s: string)
    ensures forall i :: 0 <= i < |s| ==>
              if 'A' <= s[i] <= 'Z' then Lower(s)[i] as int == s[i] as int + 32 else Lower(s)[i] == s[i]
  {
  }

  /** How a canonical id is made of a network and a source id. */
  lemma {:induction false} CanonicalIs(network: string, sourceId: string, id: NodeId)
    ensures CanonicalNodeId(network, sourceId) == Ok(id)
       <==> if id.network.Meshtastic?
            then Lower(Strip(network)) == "meshtastic" && MeshtasticId(sourceId) == Ok(id.sourceId)
            else Lower(Strip(network)) == "meshcore" && MeshcoreId(sourceId) == Ok(id.sourceId)
  {
  }

  /** How it is read from a text: the network is what comes before the first colon. */
  lemma {:induction false} ParsedAtColon(text: string, network: string, sourceId: string)
    requires Strip(text) == network + (":" + sourceId) && ':' !in network
    ensures ParseNodeId(text) == CanonicalNodeId(network, sourceId)
  {
    var candidate := Strip(text);
    ColonEndsPrefix(network, sourceId);
    assert candidate[..|network|] == network && candidate[|network| + 1..] == sourceId;
  }

  lemma {:induction false} ParsedWithoutColon(text: string)
    requires ':' !in Strip(text)
    ensures ParseNodeId(text) == Err(NoPrefix)
  {
  }

  /** The text of a node's id. */
  lemma NodeTextIs(id: NodeId)
    ensures id.network.Meshtastic? ==> id.Text() == "meshtastic:" + id.sourceId
    ensures id.network.MeshCore? ==> id.Text() == "meshcore:" + id.sourceId
  {
  }

  /** The text of a connection's id: network, kind and both ends, with colons between them. */
  lemma EdgeTextIs(kind: EdgeKind, e: Ends)
    ensures var network := if e.network.Meshtastic? then "meshtastic" else "meshcore";
            var kindText := if kind.Neighbor? then "neighbor" else if kind.Traceroute? then "traceroute"
                            else if kind.Observed? then "observed" else "unknown";
            EdgeId(kind, e) == network + (":" + (kindText + (":" + (e.from + (":" + e.to)))))
  {
  }
}
