/** A part of a reply that is taken for a reply is never made good: the stream is delivered only if every cut is lucky. */
module RespUnlucky {
  import opened Definitions
  import opened Resp
  import opened RespParser
  import opened RespParserWhole
  import opened RespParserCut
  import opened RespParserFrame
  import opened RespSession

  /** The bytes with which a reply can begin. */
  predicate IsKind(c: char) {
    c == '-' || c == '+' || c == ':' || c == '$' || c == '*'
  }

  /** The value says something else than the reply, or cannot be terminated, or what follows the part cannot begin a reply. */
  ghost predicate Spoiled(r: Reply, m: string, v: Value, next: char) {
    var t := Terminate(m, v); t.1 != 0 || View(t.0, v) != Meaning(r) || !IsKind(next)
  }

  // ---------- lines ----------

  /** The rest of a line that has arrived up to its end. */
  lemma LineEndFollows(text: string, limit: nat)
    requires |text| <= limit < |text| + 2
    ensures !IsKind((text + CRLF)[limit])
  {
  }

  lemma ShortLine(m: string, p: nat, text: string, limit: nat)
    requires LineText(text) && limit < |text| && Holds(m, p, (text + CRLF)[..limit])
    requires LineCompleted((text + CRLF)[..limit], At(m, p + limit), At(m, p + limit + 1))
    ensures At(m, p + limit) == '\r' && At(m, p + limit + 1) == '\n' && FindCrLf(m, p) == At_(p + limit)
    ensures Holds(m, p, text[..limit])
  {
    var received := (text + CRLF)[..limit];
    assert received == text[..limit];
    FindCrLfSkips(m, p, received);
  }

  lemma SimpleSpoiled(text: string, m: string, p: nat, limit: nat)
    requires limit < |text|
    ensures Spoiled(Simple(text), m, VString(p, limit), text[limit])
  {
    assert |Slice(Terminate(m, VString(p, limit)).0, p, limit)| <= limit;
  }

  lemma ErrorSpoiled(text: string, m: string, p: nat, limit: nat)
    requires limit < |text|
    ensures Spoiled(Error(text), m, ErrorValue(m, p, limit), text[limit])
  {
    hide StrToL, StartsWith, CLength;
    assert |Slice(Terminate(m, VError(p, limit)).0, p, limit)| <= limit;
  }

  // ---------- redirections ----------

  lemma {:induction false} CLengthAtMost(m: string, p: nat, q: nat)
    requires p <= q < |m| && m[q] == '\0'
    ensures CLength(m, p) <= q - p
    decreases q - p
  {
    if p < q {
      CLengthAtMost(m, p + 1, q);
    }
  }

  /** The word has not arrived: the line is no redirection of that kind. */
  lemma WordIsCut(m: string, p: nat, word: string, limit: nat)
    requires limit < |word| && At(m, p + limit) == '\r' && word[limit] != '\r'
    ensures !StartsWith(m, p, word)
  {
  }

  /** The number has begun but no space has arrived. */
  lemma NumberIsCut(m: string, p: nat, digits: string)
    requires digits != "" && (forall i :: 0 <= i < |digits| ==> IsDigit(digits[i])) && Holds(m, p, digits)
    requires At(m, p + |digits|) == '\r'
    ensures StrToL(m, p).1 == p + |digits| && At(m, StrToL(m, p).1) != ' '
  {
    HoldsAt(m, p, digits, 0);
    SkipDigitsReads(m, p, digits, 0);
  }

  /** The address is cut: what is read is shorter. */
  lemma AddressIsCut(m: string, a: nat, received: string, address: string)
    requires LineText(received) && Holds(m, a, received) && |received| < |address|
    requires At(m, a + |received|) == '\r' && At(m, a + |received| + 1) == '\n'
    ensures var n := TerminateLine(m, a); Slice(n, a, CLength(n, a)) != address
  {
    FindCrLfSkips(m, a, received);
    var n := TerminateLine(m, a);
    CLengthAtMost(n, a, a + |received|);
  }

  /** What a cut redirection line says. */
  ghost predicate LocationSpoiled(m: string, p: nat, word: string, slot: nat, address: string, limit: nat) {
    var text := LocationText(word, slot, address);
    limit < |text| && (
      || !StartsWith(m, p, word)
      || !IsKind(text[limit])
      || At(m, StrToL(m, p + |word|).1) != ' '
      || (var a := StrToL(m, p + |word|).1 + 1; var n := TerminateLine(m, a); Slice(n, a, CLength(n, a)) != address))
  }

  lemma CutInNumber(m: string, p: nat, word: string, slot: nat, address: string, limit: nat)
    requires |word| < limit <= |word| + |Decimal(slot)| && Holds(m, p, LocationText(word, slot, address)[..limit])
    requires At(m, p + limit) == '\r'
    ensures At(m, StrToL(m, p + |word|).1) != ' '
  {
    hide Decimal, StrToL, Holds;
    var part := Decimal(slot)[..limit - |word|];
    assert LocationText(word, slot, address)[..limit] == word + part;
    HoldsParts(m, p, word, part);
    NumberIsCut(m, p + |word|, part);
  }

  lemma CutInAddress(m: string, p: nat, word: string, slot: nat, address: string, limit: nat)
    requires |word| + |Decimal(slot)| < limit < |LocationText(word, slot, address)| && LineText(address)
    requires Holds(m, p, LocationText(word, slot, address)[..limit])
    requires At(m, p + limit) == '\r' && At(m, p + limit + 1) == '\n'
    ensures var a := StrToL(m, p + |word|).1 + 1; var n := TerminateLine(m, a); Slice(n, a, CLength(n, a)) != address
  {
    hide Decimal, StrToL, Holds, CLength, FindCrLf, TerminateLine, Slice;
    var front, received := Decimal(slot) + " ", address[..limit - |word| - |Decimal(slot)| - 1];
    assert LocationText(word, slot, address)[..limit] == word + (front + received);
    HoldsParts(m, p, word, front + received);
    HoldsParts(m, p + |word|, front, received);
    StrToLReads(m, p + |word|, slot);
    PartIsLine(address, |received|);
    AddressIsCut(m, p + |word| + |front|, received, address);
  }

  lemma LocationCut(m: string, p: nat, word: string, slot: nat, address: string, limit: nat)
    requires LineText(word) && LineText(address) && limit < |LocationText(word, slot, address)|
    requires Holds(m, p, LocationText(word, slot, address)[..limit])
    requires At(m, p + limit) == '\r' && At(m, p + limit + 1) == '\n'
    ensures LocationSpoiled(m, p, word, slot, address, limit)
  {
    hide Decimal, StrToL, CLength, Holds, LineText, FindCrLf, TerminateLine, Slice, StartsWith;
    if limit < |word| {
      NoLineEnd(word, limit);
      WordIsCut(m, p, word, limit);
    } else if limit == |word| {
      assert LocationText(word, slot, address)[limit] == Decimal(slot)[0];
    } else if limit <= |word| + |Decimal(slot)| {
      CutInNumber(m, p, word, slot, address, limit);
    } else {
      CutInAddress(m, p, word, slot, address, limit);
    }
  }

  lemma NoLineEnd(word: string, i: nat)
    requires LineText(word) && i < |word|
    ensures word[i] != '\r'
  {
  }

  lemma PartIsLine(text: string, n: nat)
    requires LineText(text) && n <= |text|
    ensures LineText(text[..n])
  {
  }

  lemma AskSpoiled(slot: nat, address: string, m: string, p: nat, limit: nat)
    requires LocationSpoiled(m, p, "ASK ", slot, address, limit)
    ensures Spoiled(Ask(slot, address), m, ErrorValue(m, p, limit), LocationText("ASK ", slot, address)[limit])
  {
    hide StrToL, StartsWith, CLength, TerminateLine, LocationText;
  }

  lemma MovedSpoiled(slot: nat, address: string, m: string, p: nat, limit: nat)
    requires LocationSpoiled(m, p, "MOVED ", slot, address, limit)
    ensures Spoiled(Moved(slot, address), m, ErrorValue(m, p, limit), LocationText("MOVED ", slot, address)[limit])
  {
    hide StrToL, StartsWith, CLength, TerminateLine, LocationText;
  }

  // ---------- any reply ----------

  /** What an accepted part of a reply is taken for. */
  ghost predicate PartSpoils(r: Reply, m: string, p: nat, k: nat, top: bool)
    requires 0 < k < |Encode(r)|
  {
    Spoiled(r, m, Parse(m, p + k, p, top).value, Encode(r)[k])
  }

  /** A line is short by at least a byte of its text. */
  lemma ShortSpoils(r: Reply, text: string, m: string, p: nat, limit: nat)
    requires WellFormed(r) && IsLine(r, text) && limit < |text| && Holds(m, p, text[..limit])
    requires At(m, p + limit) == '\r' && At(m, p + limit + 1) == '\n'
    ensures Spoiled(r, m, if r.Simple? then VString(p, limit) else ErrorValue(m, p, limit), text[limit])
  {
    hide LocationText, ErrorValue, Spoiled, Holds, LineText;
    match r
    case Simple(_) => SimpleSpoiled(text, m, p, limit);
    case Error(_) => ErrorSpoiled(text, m, p, limit);
    case Ask(slot, address) =>
      AddressIsLine(r);
      LocationCut(m, p, "ASK ", slot, address, limit);
      AskSpoiled(slot, address, m, p, limit);
    case Moved(slot, address) =>
      AddressIsLine(r);
      LocationCut(m, p, "MOVED ", slot, address, limit);
      MovedSpoiled(slot, address, m, p, limit);
  }

  predicate IsLine(r: Reply, text: string) {
    match r
    case Simple(t) => text == t
    case Error(t) => text == t
    case Ask(slot, address) => text == LocationText("ASK ", slot, address)
    case Moved(slot, address) => text == LocationText("MOVED ", slot, address)
    case _ => false
  }

  lemma LineValue(r: Reply, text: string, m: string, p: nat, k: nat, top: bool)
    requires IsLine(r, text) && 0 < k && (k > 1 || r.Simple?) && At(m, p) == (if r.Simple? then '+' else '-')
    requires FindCrLf(m, p + 1) == At_(p + k)
    ensures Parse(m, p + k, p, top).value == if r.Simple? then VString(p + 1, k - 1) else ErrorValue(m, p + 1, k - 1)
  {
    hide ErrorValue, LocationText, FindCrLf;
  }

  lemma AcceptedLine(r: Reply, text: string, k: nat, s0: char, s1: char, top: bool)
    requires IsLine(r, text) && 0 < k < |Encode(r)| && Cut(r, k, s0, s1, top) == Accepted
    ensures Encode(r)[1..] == text + CRLF && Encode(r)[0] == (if r.Simple? then '+' else '-')
    ensures LineCompleted(Encode(r)[1..][..k - 1], s0, s1) && (k > 1 || r.Simple?)
  {
    hide LocationText, LineCompleted;
    assert Encode(r)[1..][..k - 1] == Encode(r)[1..k];
  }

  lemma LineSpoils(r: Reply, text: string, m: string, p: nat, k: nat, top: bool)
    requires WellFormed(r) && IsLine(r, text) && LineText(text)
    requires 0 < k < |Encode(r)| && Holds(m, p, Encode(r)[..k])
    requires Cut(r, k, At(m, p + k), At(m, p + k + 1), top) == Accepted
    ensures PartSpoils(r, m, p, k, top)
  {
    hide LocationText, ErrorValue, FindCrLf, Parse, Holds, LineText, Spoiled, Encode, Cut, IsLine;
    var limit := k - 1;
    AcceptedLine(r, text, k, At(m, p + k), At(m, p + k + 1), top);
    KindOfCut(m, p, r, k);
    assert Encode(r)[k] == (text + CRLF)[limit];
    if limit >= |text| {
      LineEndFollows(text, limit);
      NotAKind(r, m, Parse(m, p + k, p, top).value, Encode(r)[k]);
    } else {
      ShortLine(m, p + 1, text, limit);
      ShortSpoils(r, text, m, p + 1, limit);
      LineValue(r, text, m, p, k, top);
    }
  }

  lemma NotAKind(r: Reply, m: string, v: Value, next: char)
    requires !IsKind(next)
    ensures Spoiled(r, m, v, next)
  {
  }

  lemma AddressIsLine(r: Reply)
    requires WellFormed(r) && (r.Ask? || r.Moved?)
    ensures LineText(r.address) && LineText("ASK ") && LineText("MOVED ")
  {
  }

  lemma BulkSpoils(bytes: string, m: string, p: nat, k: nat)
    requires |BulkHead(|bytes|)| <= k < |BulkHead(|bytes|)| + |bytes| && Holds(m, p, Encode(Bulk(bytes))[..k])
    ensures PartSpoils(Bulk(bytes), m, p, k, true)
  {
    hide Parse, BulkHead, Holds;
    PartParsed(bytes, m, p, k);
  }

  ghost predicate AllSpoiled(rs: seq<Reply>, m: string, vs: seq<Value>, next: char) {
    var t := TerminateAll(m, vs); t.1 != 0 || Views(t.0, vs) != Meanings(rs) || !IsKind(next)
  }

  lemma SpoiledOne(r: Reply, m: string, v: Value, next: char)
    requires Spoiled(r, m, v, next)
    ensures AllSpoiled([r], m, [v], next)
  {
    hide Terminate, View, Meaning;
    assert [v][1..] == [] && [r][1..] == [];
    var t := Terminate(m, v);
    assert t.1 == 0 ==> TerminateAll(m, [v]) == (t.0, 0);
    assert Views(t.0, [v])[0] == View(t.0, v) && Meanings([r])[0] == Meaning(r);
  }

  lemma SpoiledMore(r: Reply, rs: seq<Reply>, m: string, n: string, v: Value, vs: seq<Value>, next: char)
    requires Terminate(m, v) == (n, 0) && AllSpoiled(rs, n, vs, next)
    ensures AllSpoiled([r] + rs, m, [v] + vs, next)
  {
    hide Terminate, View, Meaning;
    assert ([v] + vs)[1..] == vs && ([r] + rs)[1..] == rs;
    var t := TerminateAll(n, vs);
    assert TerminateAll(m, [v] + vs) == t;
    assert Views(t.0, [v] + vs)[1..] == Views(t.0, vs) && Meanings([r] + rs)[1..] == Meanings(rs);
  }

  /** Memory from the end of a terminated reply on is as it was. */
  lemma PatchedSame(m: string, n: string, p: nat, s: string)
    requires Patched(m, n, p, s)
    ensures SameFrom(m, n, p + |s|)
  {
  }

  lemma HoldsSame(m: string, n: string, p: nat, s: string)
    requires SameFrom(m, n, p) && Holds(m, p, s)
    ensures Holds(n, p, s) && At(n, p + |s|) == At(m, p + |s|) && At(n, p + |s| + 1) == At(m, p + |s| + 1)
  {
  }

  /** An accepted part of a reply, at any nesting, spoils the session. */
  lemma {:induction false} AcceptedSpoils(r: Reply, m: string, p: nat, k: nat, top: bool)
    requires WellFormed(r) && 0 < k < |Encode(r)| && Holds(m, p, Encode(r)[..k])
    requires Cut(r, k, At(m, p + k), At(m, p + k + 1), top) == Accepted
    ensures PartSpoils(r, m, p, k, top)
    decreases r
  {
    hide PartSpoils, Holds, LocationText, CutElements, LineCompleted, ArrayHead, EncodeAll, AllWellFormed;
    match r
    case Simple(text) => LineSpoils(r, text, m, p, k, top);
    case Error(text) => LineSpoils(r, text, m, p, k, top);
    case Ask(slot, address) =>
      LocationIsLine("ASK ", slot, address);
      LineSpoils(r, LocationText("ASK ", slot, address), m, p, k, top);
    case Moved(slot, address) =>
      LocationIsLine("MOVED ", slot, address);
      LineSpoils(r, LocationText("MOVED ", slot, address), m, p, k, top);
    case Bulk(bytes) => BulkSpoils(bytes, m, p, k);
    case Array(elems) => ArraySpoils(elems, m, p, k, top);
  }

  lemma {:induction false} ArraySpoils(elems: seq<Reply>, m: string, p: nat, k: nat, top: bool)
    requires WellFormed(Array(elems)) && 0 < k < |Encode(Array(elems))| && Holds(m, p, Encode(Array(elems))[..k])
    requires Cut(Array(elems), k, At(m, p + k), At(m, p + k + 1), top) == Accepted
    ensures PartSpoils(Array(elems), m, p, k, top)
    decreases elems, 1
  {
    hide ExtractInteger, ArrayHead, ParseElements, CutElements, Holds, EncodeAll, TerminateAll, Views, Meanings;
    hide AllWellFormed, AllSpoiled;
    var head, body := ArrayHead(|elems|), EncodeAll(elems);
    var j := k - |head|;
    assert (head + body)[..k] == head + body[..j];
    HoldsParts(m, p, head, body[..j]);
    ArrayHeadWhole(m, p + k, p, |elems|);
    ElementsCut(elems, m, p + |head|, j);
    ElementsSpoil(elems, m, p + |head|, j);
    var vs := ParseElements(m, p + k, p + |head|, |elems|).1;
    ArrayValue(elems, m, p, k, top);
    SpoiledArray(elems, m, vs, body[j]);
    assert Encode(Array(elems))[k] == body[j];
  }

  lemma ArrayValue(elems: seq<Reply>, m: string, p: nat, k: nat, top: bool)
    requires |elems| <= INT32_MAX && |ArrayHead(|elems|)| <= k && At(m, p) == '*'
    requires ExtractInteger(m, p + 1, k - 1) == Number(|elems|, |ArrayHead(|elems|)| - 1)
    requires ParseElements(m, p + k, p + |ArrayHead(|elems|)|, |elems|).0 == 0
    ensures Parse(m, p + k, p, top).value == VArray(ParseElements(m, p + k, p + |ArrayHead(|elems|)|, |elems|).1)
  {
    hide ExtractInteger, ParseElements, ArrayHead;
    assert p + k - (p + 1) == k - 1;
  }

  lemma SpoiledArray(rs: seq<Reply>, m: string, vs: seq<Value>, next: char)
    requires AllSpoiled(rs, m, vs, next)
    ensures Spoiled(Array(rs), m, VArray(vs), next)
  {
    hide TerminateAll, Views, Meanings;
  }

  lemma {:induction false} ElementsSpoil(rs: seq<Reply>, m: string, p: nat, k: nat)
    requires AllWellFormed(rs) && k < |EncodeAll(rs)| && Holds(m, p, EncodeAll(rs)[..k])
    requires CutElements(rs, k, At(m, p + k), At(m, p + k + 1)) == Accepted
    ensures AllSpoiled(rs, m, ParseElements(m, p + k, p, |rs|).1, EncodeAll(rs)[k])
    decreases rs, 0
  {
    hide Parse, Encode, Cut, WellFormed, AllSpoiled, Spoiled, Holds, ValueOf, Terminate, NulEncode;
    var first, rest := Encode(rs[0]), EncodeAll(rs[1..]);
    if k < |first| {
      assert rs == [rs[0]];
      assert (first + rest)[..k] == first[..k] && (first + rest)[k] == first[k];
      AcceptedSpoils(rs[0], m, p, k, false);
      ParseCut(rs[0], m, p, k, false);
      SpoiledOne(rs[0], m, Parse(m, p + k, p, false).value, first[k]);
      assert ParseElements(m, p + k, p, 1).1 == [Parse(m, p + k, p, false).value];
    } else {
      var q, j := p + |first|, k - |first|;
      assert (first + rest)[..k] == first + rest[..j] && (first + rest)[k] == rest[j];
      HoldsParts(m, p, first, rest[..j]);
      ParseWhole(rs[0], m, p + k, p, false);
      TerminateWhole(rs[0], m, p);
      var v := ValueOf(rs[0], p);
      var n := Terminate(m, v).0;
      PatchedSame(m, n, p, NulEncode(rs[0]));
      HoldsSame(m, n, q, rest[..j]);
      ElementsSpoil(rs[1..], n, q, j);
      ElementsSame(m, n, p + k, q, |rs| - 1);
      var vs := ParseElements(m, p + k, q, |rs| - 1).1;
      SpoiledMore(rs[0], rs[1..], m, n, v, vs, rest[j]);
      assert rs == [rs[0]] + rs[1..];
      assert ParseElements(m, p + k, p, |rs|).1 == [v] + vs;
    }
  }

  // ---------- broken parts ----------

  /** A value that no memory lets be terminated. */
  ghost predicate Hopeless(v: Value)
    decreases v
  {
    v.VInvalid? || v.VUnspecified? || (v.VArray? && HopelessIn(v.elems))
  }

  ghost predicate HopelessIn(vs: seq<Value>)
    decreases vs
  {
    vs != [] && (Hopeless(vs[0]) || HopelessIn(vs[1..]))
  }

  lemma {:induction false} HopelessFails(m: string, v: Value)
    requires Hopeless(v)
    ensures Terminate(m, v).1 != 0
    decreases v
  {
    if v.VArray? {
      HopelessInFails(m, v.elems);
    }
  }

  lemma {:induction false} HopelessInFails(m: string, vs: seq<Value>)
    requires HopelessIn(vs)
    ensures TerminateAll(m, vs).1 != 0
    decreases vs
  {
    if Hopeless(vs[0]) {
      HopelessFails(m, vs[0]);
    } else {
      HopelessInFails(Terminate(m, vs[0]).0, vs[1..]);
    }
  }

  lemma {:induction false} BrokenIsHopeless(r: Reply, m: string, p: nat, k: nat, top: bool)
    requires WellFormed(r) && 0 < k < |Encode(r)| && Holds(m, p, Encode(r)[..k])
    requires Cut(r, k, At(m, p + k), At(m, p + k + 1), top) == Broken
    ensures Hopeless(Parse(m, p + k, p, top).value)
    decreases r
  {
    hide Holds, ExtractInteger, CutElements, ParseElements, EncodeAll, AllWellFormed, ArrayHead;
    KindOfCut(m, p, r, k);
    if r.Array? {
      ArrayBroken(r.elems, m, p, k, top);
    }
  }

  lemma {:induction false} ArrayBroken(elems: seq<Reply>, m: string, p: nat, k: nat, top: bool)
    requires WellFormed(Array(elems)) && 0 < k < |Encode(Array(elems))| && Holds(m, p, Encode(Array(elems))[..k])
    requires Cut(Array(elems), k, At(m, p + k), At(m, p + k + 1), top) == Broken
    ensures Hopeless(Parse(m, p + k, p, top).value)
    decreases elems, 1
  {
    hide ExtractInteger, ArrayHead, ParseElements, CutElements, Holds, EncodeAll, AllWellFormed, HopelessIn;
    var head, body := ArrayHead(|elems|), EncodeAll(elems);
    var j := k - |head|;
    assert (head + body)[..k] == head + body[..j];
    HoldsParts(m, p, head, body[..j]);
    ArrayHeadWhole(m, p + k, p, |elems|);
    ElementsCut(elems, m, p + |head|, j);
    ElementsBroken(elems, m, p + |head|, j);
  }

  lemma {:induction false} ElementsBroken(rs: seq<Reply>, m: string, p: nat, k: nat)
    requires AllWellFormed(rs) && k < |EncodeAll(rs)| && Holds(m, p, EncodeAll(rs)[..k])
    requires CutElements(rs, k, At(m, p + k), At(m, p + k + 1)) == Broken
    ensures HopelessIn(ParseElements(m, p + k, p, |rs|).1)
    decreases rs, 0
  {
    hide Parse, Encode, Cut, WellFormed, Hopeless, Holds, ValueOf;
    var first, rest := Encode(rs[0]), EncodeAll(rs[1..]);
    var vs := ParseElements(m, p + k, p, |rs|).1;
    if k < |first| {
      assert (first + rest)[..k] == first[..k];
      BrokenIsHopeless(rs[0], m, p, k, false);
      ParseCut(rs[0], m, p, k, false);
      assert vs[0] == Parse(m, p + k, p, false).value;
    } else {
      var q, j := p + |first|, k - |first|;
      assert (first + rest)[..k] == first + rest[..j];
      HoldsParts(m, p, first, rest[..j]);
      ParseWhole(rs[0], m, p + k, p, false);
      ElementsBroken(rs[1..], m, q, j);
      assert vs[1..] == ParseElements(m, p + k, q, |rs| - 1).1;
    }
  }

  // ---------- the session ----------

  predicate Failed(rc: int) {
    rc != 0 && rc != -EAGAIN
  }

  /**
    Draining ended in good order, but behind `c` replies it took a part of the next one for a result:
    a wrong one, or what comes next cannot begin a reply.
   */
  ghost predicate Strayed(rs: seq<Reply>, d: Drained, n: nat, c: nat, x: Content) {
    && c < |rs| && d.rc == 0 && d.buffer.p == d.buffer.avail && d.results == Contents(rs, c) + [x]
    && n < |Stream(rs, |rs|)| && (x != Meaning(rs[c]) || !IsKind(Stream(rs, |rs|)[n]))
  }

  /** The part of the reply that is cut: the attempt fails, or takes the part for a result. */
  lemma TopUnlucky(r: Reply, m: string, p: nat, k: nat)
    requires WellFormed(r) && 0 < k < |Encode(r)| && Holds(m, p, Encode(r)[..k])
    requires Cut(r, k, At(m, p + k), At(m, p + k + 1), true) != Again
    ensures var (o, n) := ParseTop(m, p + k, p);
      || Failed(o.rc)
      || (o.rc == 0 && o.pos == p + k && (View(n, o.value) != Meaning(r) || !IsKind(Encode(r)[k])))
  {
    hide Encode, Cut, Parse, Terminate, View, Meaning, WellFormed, Holds, Hopeless;
    var o := Parse(m, p + k, p, true);
    ParseCut(r, m, p, k, true);
    TerminateNeverAgain(m, o.value);
    if Cut(r, k, At(m, p + k), At(m, p + k + 1), true) == Broken {
      BrokenIsHopeless(r, m, p, k, true);
      HopelessFails(m, o.value);
    } else {
      AcceptedSpoils(r, m, p, k, true);
    }
  }

  lemma DrainCut(rs: seq<Reply>, b: Buffer, i: nat, n: nat) returns (x: Content)
    requires i < |rs| && WellFormed(rs[i]) && Synced(Stream(rs, |rs|), b, |Stream(rs, i)|, n)
    requires 0 < n - |Stream(rs, i)| < |Encode(rs[i])|
    requires Cut(rs[i], n - |Stream(rs, i)|, At(b.m, b.avail), At(b.m, b.avail + 1), true) != Again
    ensures var d := Drain(b, Contents(rs, i)); Failed(d.rc) || Strayed(rs, d, n, i, x)
  {
    hide Encode, Cut, ParseTop, View, Meaning, WellFormed, Holds, Stream, Contents;
    var s, start := Stream(rs, |rs|), |Stream(rs, i)|;
    var k := n - start;
    ReplyInStream(rs, i);
    CutInStream(s, start, Encode(rs[i]), k);
    TopUnlucky(rs[i], b.m, b.p, k);
    var (o, m) := ParseTop(b.m, b.avail, b.p);
    x := View(m, o.value);
    DrainTwice(b, Contents(rs, i), o, m);
  }

  lemma CutInStream(s: string, start: nat, e: string, k: nat)
    requires start + |e| <= |s| && e <= s[start..] && k < |e|
    ensures s[start..start + k] == e[..k] && s[start + k] == e[k]
  {
    assert s[start..][k] == e[k];
  }

  lemma DrainTwice(b: Buffer, results: seq<Content>, o: Outcome, m: string)
    requires b.Valid() && b.p < b.avail && ParseTop(b.m, b.avail, b.p) == (o, m)
    ensures o.rc != 0 ==> Drain(b, results).rc == o.rc
    ensures o.rc == 0 && o.pos == b.avail ==> Drain(b, results) == Drained(Buffer(m, b.avail, o.pos), results + [View(m, o.value)], 0)
  {
    hide ParseTop, View;
    var next := Buffer(m, b.avail, o.pos);
    if o.rc == 0 && o.pos == b.avail {
      assert Drain(next, results + [View(m, o.value)]) == Drained(next, results + [View(m, o.value)], 0);
    }
  }

  /** Reply j is cut at an unlucky place; the replies before it are delivered first. */
  lemma {:induction false} DrainUnlucky(rs: seq<Reply>, b: Buffer, i: nat, j: nat, n: nat) returns (x: Content)
    requires i <= j < |rs| && (forall k :: 0 <= k < |rs| ==> WellFormed(rs[k]))
    requires Synced(Stream(rs, |rs|), b, |Stream(rs, i)|, n)
    requires 0 < n - |Stream(rs, j)| < |Encode(rs[j])|
    requires Cut(rs[j], n - |Stream(rs, j)|, At(b.m, b.avail), At(b.m, b.avail + 1), true) != Again
    ensures var d := Drain(b, Contents(rs, i)); Failed(d.rc) || Strayed(rs, d, n, j, x)
    decreases j - i
  {
    hide Encode, ParseTop, Cut, WellFormed, Meaning, View, Strayed;
    if i == j {
      x := DrainCut(rs, b, i, n);
    } else {
      var s, start := Stream(rs, |rs|), |Stream(rs, i)|;
      ReplyInStream(rs, i);
      StreamGrows(rs, i + 1, j);
      DrainOne(rs[i], s, b, start, n);
      var (o, m) := ParseTop(b.m, b.avail, b.p);
      x := DrainUnlucky(rs, Buffer(m, b.avail, o.pos), i + 1, j, n);
    }
  }

  // ---------- what has gone wrong stays wrong ----------

  lemma {:induction false} DrainGrows(b: Buffer, results: seq<Content>)
    requires b.Valid()
    ensures results <= Drain(b, results).results
    decreases b.avail - b.p
  {
    hide ParseTop, View;
    if b.p < b.avail {
      var (o, m) := ParseTop(b.m, b.avail, b.p);
      if o.rc == 0 && o.pos > b.p {
        DrainGrows(Buffer(m, b.avail, o.pos), results + [View(m, o.value)]);
      }
    }
  }

  lemma {:induction false} SessionGrows(b: Buffer, results: seq<Content>, arrivals: seq<Arrival>)
    requires b.Valid()
    ensures results <= Session(b, results, arrivals).results
    decreases |arrivals|
  {
    hide Drain, Receive;
    if arrivals != [] {
      var d := Drain(Receive(b, arrivals[0]), results);
      DrainGrows(Receive(b, arrivals[0]), results);
      if !Failed(d.rc) {
        SessionGrows(d.buffer, d.results, arrivals[1..]);
      }
    }
  }

  lemma {:induction false} ContentsAt(rs: seq<Reply>, i: nat, c: nat)
    requires c < i <= |rs|
    ensures |Contents(rs, i)| == i && Contents(rs, i)[c] == Meaning(rs[c])
  {
    hide Meaning;
    if c < i - 1 {
      ContentsAt(rs, i - 1, c);
    } else {
      ContentsLength(rs, i - 1);
    }
  }

  lemma {:induction false} ContentsLength(rs: seq<Reply>, i: nat)
    requires i <= |rs|
    ensures |Contents(rs, i)| == i
  {
    hide Meaning;
    if i > 0 {
      ContentsLength(rs, i - 1);
    }
  }

  /** A wrong result is never taken back. */
  lemma WrongResultStays(rs: seq<Reply>, b: Buffer, c: nat, x: Content, arrivals: seq<Arrival>)
    requires b.Valid() && c < |rs| && x != Meaning(rs[c])
    ensures Session(b, Contents(rs, c) + [x], arrivals).results != Contents(rs, |rs|)
  {
    hide Session, Meaning;
    ContentsLength(rs, c);
    ContentsAt(rs, |rs|, c);
    SessionGrows(b, Contents(rs, c) + [x], arrivals);
    assert (Contents(rs, c) + [x])[c] == x;
  }

  /** A byte that cannot begin a reply is skipped and refused, and nothing is written. */
  lemma NoReplyHere(b: Buffer, results: seq<Content>)
    requires b.Valid() && b.p < b.avail && !IsKind(At(b.m, b.p))
    ensures Drain(b, results) == Drained(b.(p := b.p + 1), results, 0 - EBADMSG)
  {
  }

  /** With nothing unprocessed, a byte that cannot begin a reply ends the session with an error. */
  lemma {:induction false} NoReplyFollows(arrivals: seq<Arrival>, s: string, b: Buffer, results: seq<Content>, k: nat)
    requires k <= |arrivals| && Bytes(arrivals, |arrivals|) == s && b.Valid() && b.p == b.avail
    requires |Bytes(arrivals, k)| < |s| && !IsKind(s[|Bytes(arrivals, k)|])
    ensures Failed(Session(b, results, arrivals[k..]).rc)
    decreases |arrivals| - k
  {
    hide Drain, Bytes, IsKind;
    BytesNext(arrivals, k, s);
    assert arrivals[k..][0] == arrivals[k] && arrivals[k..][1..] == arrivals[k + 1..];
    var a := arrivals[k];
    var r := Receive(b, a);
    if a.bytes == "" {
      NothingToDrain(r, results);
      NoReplyFollows(arrivals, s, r, results, k + 1);
    } else {
      assert At(r.m, r.p) == a.bytes[0] == s[|Bytes(arrivals, k)|];
      NoReplyHere(r, results);
    }
  }

  lemma NothingToDrain(b: Buffer, results: seq<Content>)
    requires b.Valid() && b.p == b.avail
    ensures Drain(b, results) == Drained(b, results, 0)
  {
  }

  // ---------- the exact condition ----------

  /** The arrival that ends at an unlucky place. */
  lemma UnluckyRound(rs: seq<Reply>, arrivals: seq<Arrival>, b: Buffer, i: nat, k: nat)
    requires i <= |rs| && k < |arrivals| && (forall r | r in rs :: WellFormed(r))
    requires Bytes(arrivals, |arrivals|) == Stream(rs, |rs|) && !LuckyAt(rs, arrivals, k + 1)
    requires Synced(Stream(rs, |rs|), b, |Stream(rs, i)|, |Bytes(arrivals, k)|)
    ensures !Delivers(Session(b, Contents(rs, i), arrivals[k..]), Contents(rs, |rs|))
  {
    hide Drain, WellFormed, Synced, Receive, Stream, Bytes, Contents, Cut, Encode, Meaning, Strayed;
    var s, n := Stream(rs, |rs|), |Bytes(arrivals, k + 1)|;
    BytesNext(arrivals, k, s);
    SyncedBounds(s, b, |Stream(rs, i)|, |Bytes(arrivals, k)|);
    ReceiveSyncs(s, b, |Stream(rs, i)|, |Bytes(arrivals, k)|, arrivals[k]);
    var j :| 0 <= j < |rs| && 0 < n - |Stream(rs, j)| < |Encode(rs[j])| &&
      Cut(rs[j], n - |Stream(rs, j)|, At(arrivals[k].behind, 0), At(arrivals[k].behind, 1), true) != Again;
    CutIsAhead(rs, i, j, n);
    var r := Receive(b, arrivals[k]);
    var x := DrainUnlucky(rs, r, i, j, n);
    var d := Drain(r, Contents(rs, i));
    assert arrivals[k..][0] == arrivals[k] && arrivals[k..][1..] == arrivals[k + 1..];
    if !Failed(d.rc) {
      StrayedNeverDelivers(rs, arrivals, d, j, x, k + 1);
    }
  }

  lemma CutIsAhead(rs: seq<Reply>, i: nat, j: nat, n: nat)
    requires i <= |rs| && j < |rs| && |Stream(rs, i)| <= n < |Stream(rs, j)| + |Encode(rs[j])|
    ensures i <= j
  {
    hide Encode;
    if j < i {
      StreamGrows(rs, j + 1, i);
    }
  }

  lemma StrayedNeverDelivers(rs: seq<Reply>, arrivals: seq<Arrival>, d: Drained, c: nat, x: Content, k: nat)
    requires k <= |arrivals| && Bytes(arrivals, |arrivals|) == Stream(rs, |rs|) && d.buffer.Valid()
    requires Strayed(rs, d, |Bytes(arrivals, k)|, c, x)
    ensures !Delivers(Session(d.buffer, d.results, arrivals[k..]), Contents(rs, |rs|))
  {
    hide Session, Bytes, Stream, Contents, Meaning;
    if x != Meaning(rs[c]) {
      WrongResultStays(rs, d.buffer, c, x, arrivals[k..]);
    } else {
      NoReplyFollows(arrivals, Stream(rs, |rs|), d.buffer, d.results, k);
    }
  }

  lemma {:induction false} UnluckySession(rs: seq<Reply>, arrivals: seq<Arrival>, b: Buffer, i: nat, k: nat, at: nat)
    requires i <= |rs| && k < at <= |arrivals| && (forall r | r in rs :: WellFormed(r))
    requires Bytes(arrivals, |arrivals|) == Stream(rs, |rs|) && !LuckyAt(rs, arrivals, at)
    requires Synced(Stream(rs, |rs|), b, |Stream(rs, i)|, |Bytes(arrivals, k)|)
    ensures !Delivers(Session(b, Contents(rs, i), arrivals[k..]), Contents(rs, |rs|))
    decreases |arrivals| - k
  {
    hide Drain, WellFormed, Receive, Stream, Bytes, Contents, LuckyAt, Synced;
    if !LuckyAt(rs, arrivals, k + 1) {
      UnluckyRound(rs, arrivals, b, i, k);
    } else {
      SyncedBounds(Stream(rs, |rs|), b, |Stream(rs, i)|, |Bytes(arrivals, k)|);
      var j := Round(rs, arrivals, b, i, k);
      assert arrivals[k..][0] == arrivals[k] && arrivals[k..][1..] == arrivals[k + 1..];
      UnluckySession(rs, arrivals, Drain(Receive(b, arrivals[k]), Contents(rs, i)).buffer, j, k + 1, at);
    }
  }

  /**
    However a stream of replies is cut into arrivals and whatever memory holds behind them: the loop
    delivers exactly the replies, in order, and consumes every byte, if and only if every cut is lucky.
   */
  lemma StreamDeliveredIff(rs: seq<Reply>, arrivals: seq<Arrival>)
    requires forall r | r in rs :: WellFormed(r)
    requires Bytes(arrivals, |arrivals|) == Stream(rs, |rs|)
    ensures Delivers(Session(EMPTY_BUFFER, [], arrivals), Contents(rs, |rs|)) <==> LuckyArrivals(rs, arrivals)
  {
    hide Session, WellFormed, LuckyAt, Delivers;
    if LuckyArrivals(rs, arrivals) {
      StreamDelivered(rs, arrivals);
    } else {
      var at :| 0 < at <= |arrivals| && !LuckyAt(rs, arrivals, at);
      assert arrivals[0..] == arrivals;
      UnluckySession(rs, arrivals, EMPTY_BUFFER, 0, 0, at);
    }
  }

  // ---------- over cleared memory ----------

  /** Byte n of the stream is neither just after the marker of a bulk string nor in the body of one that is a reply itself. */
  ghost predicate CleanCut(rs: seq<Reply>, n: nat) {
    forall i {:trigger Stream(rs, i)} :: 0 <= i < |rs| && 0 < n - |Stream(rs, i)| < |Encode(rs[i])| ==>
      !AfterMarker(rs[i], n - |Stream(rs, i)|) && !InBody(rs[i], n - |Stream(rs, i)|)
  }

  lemma CleanIsLucky(rs: seq<Reply>, n: nat, s1: char)
    ensures LuckyCut(rs, n, '\0', s1) <==> CleanCut(rs, n)
  {
    hide Encode, Stream, Cut, AfterMarker, InBody;
    forall i | 0 <= i < |rs| && 0 < n - |Stream(rs, i)| < |Encode(rs[i])|
      ensures Cut(rs[i], n - |Stream(rs, i)|, '\0', s1, true) == Again
        <==> (!AfterMarker(rs[i], n - |Stream(rs, i)|) && !InBody(rs[i], n - |Stream(rs, i)|))
    {
      LuckyOverClearedMemory(rs[i], n - |Stream(rs, i)|, s1, true);
    }
  }

  ghost predicate CleanAt(rs: seq<Reply>, arrivals: seq<Arrival>, i: nat)
    requires i <= |arrivals|
  {
    CleanCut(rs, |Bytes(arrivals, i)|)
  }

  /** If memory behind the data is zero, only the places of the cuts matter. */
  lemma ClearedStreamDeliveredIff(rs: seq<Reply>, arrivals: seq<Arrival>)
    requires forall r | r in rs :: WellFormed(r)
    requires Bytes(arrivals, |arrivals|) == Stream(rs, |rs|)
    requires forall a | a in arrivals :: At(a.behind, 0) == '\0'
    ensures Delivers(Session(EMPTY_BUFFER, [], arrivals), Contents(rs, |rs|))
      <==> forall i :: 0 < i <= |arrivals| ==> CleanAt(rs, arrivals, i)
  {
    hide Session, WellFormed, Delivers, CleanCut, LuckyCut, Stream, Contents;
    StreamDeliveredIff(rs, arrivals);
    forall i | 0 < i <= |arrivals| ensures LuckyAt(rs, arrivals, i) <==> CleanAt(rs, arrivals, i) {
      assert arrivals[i - 1] in arrivals;
      CleanIsLucky(rs, |Bytes(arrivals, i)|, At(arrivals[i - 1].behind, 1));
    }
  }
}
