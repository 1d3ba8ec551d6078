/** What the bytes of a command tell its reader: the commands, and the namespace of a key. */
module CommandsRead {
  import opened Definitions
  import opened Resp
  import opened RespParser
  import opened RespParserWhole
  import opened Commands
  import Listing = Directory

  predicate Short(ws: seq<string>) {
    |ws| <= INT32_MAX && forall i :: 0 <= i < |ws| ==> |ws[i]| <= INT64_MAX
  }

  lemma {:induction false} BulksWellFormed(ws: seq<string>)
    requires Short(ws)
    ensures AllWellFormed(Words(ws).elems)
    decreases |ws|
  {
    if ws != [] {
      assert Words(ws).elems[1..] == Words(ws[1..]).elems;
      BulksWellFormed(ws[1..]);
    }
  }

  /** Bulk strings that the parser places alike in the same bytes are the same. */
  lemma {:induction false} SamePlaces(a: seq<string>, b: seq<string>, m: string, p: nat)
    requires |a| == |b|
    requires Holds(m, p, EncodeAll(Words(a).elems)) && Holds(m, p, EncodeAll(Words(b).elems))
    requires ValuesOf(Words(a).elems, p) == ValuesOf(Words(b).elems, p)
    ensures a == b
    decreases |a|
  {
    hide Holds, EncodeAll, ValuesOf;
    if a != [] {
      First(a, m, p);
      First(b, m, p);
      var v, w := ValuesOf(Words(a).elems, p), ValuesOf(Words(b).elems, p);
      assert ValueOf(Bulk(a[0]), p) == v[0] == w[0] == ValueOf(Bulk(b[0]), p);
      SameBulk(a[0], b[0], m, p);
      assert ValuesOf(Words(a[1..]).elems, p + |Encode(Bulk(a[0]))|) == v[1..] == w[1..];
      SamePlaces(a[1..], b[1..], m, p + |Encode(Bulk(a[0]))|);
      assert a == [a[0]] + a[1..] && b == [b[0]] + b[1..];
    }
  }

  lemma First(ws: seq<string>, m: string, p: nat)
    requires ws != [] && Holds(m, p, EncodeAll(Words(ws).elems))
    ensures Holds(m, p, Encode(Bulk(ws[0])))
    ensures Holds(m, p + |Encode(Bulk(ws[0]))|, EncodeAll(Words(ws[1..]).elems))
    ensures ValuesOf(Words(ws).elems, p)
         == [ValueOf(Bulk(ws[0]), p)] + ValuesOf(Words(ws[1..]).elems, p + |Encode(Bulk(ws[0]))|)
  {
    hide Holds, ValueOf, Encode;
    assert Words(ws).elems[1..] == Words(ws[1..]).elems;
    HoldsParts(m, p, Encode(Bulk(ws[0])), EncodeAll(Words(ws[1..]).elems));
  }

  lemma SameBulk(v: string, w: string, m: string, p: nat)
    requires |v| == |w| && Holds(m, p, Encode(Bulk(v))) && Holds(m, p, Encode(Bulk(w)))
    ensures v == w
  {
    hide BulkHead, Holds;
    HoldsParts(m, p, BulkHead(|v|) + v, CRLF);
    HoldsParts(m, p, BulkHead(|v|), v);
    HoldsParts(m, p, BulkHead(|w|) + w, CRLF);
    HoldsParts(m, p, BulkHead(|w|), w);
    SameAt(m, p + |BulkHead(|v|)|, v, w);
  }

  lemma SameAt(m: string, p: nat, v: string, w: string)
    requires |v| == |w| && Holds(m, p, v) && Holds(m, p, w)
    ensures v == w
  {
    forall i | 0 <= i < |v| ensures v[i] == w[i] {
      assert m[p + i] == v[i];
    }
  }

  /** The bytes of a command determine its words. */
  lemma SameBytesSameWords(a: seq<string>, b: seq<string>, m: string)
    requires Short(a) && Short(b)
    requires Holds(m, 0, Encode(Words(a))) && Holds(m, 0, Encode(Words(b)))
    ensures a == b
  {
    hide Holds, ArrayHead, Encode, Parse;
    BulksWellFormed(a);
    BulksWellFormed(b);
    HoldsFits(m, Encode(Words(a)));
    HoldsFits(m, Encode(Words(b)));
    ParseWhole(Words(a), m, |m|, 0, true);
    ParseWhole(Words(b), m, |m|, 0, true);
    Unfold(a, m);
    Unfold(b, m);
    SamePlaces(a, b, m, |ArrayHead(|a|)|);
  }

  lemma HoldsFits(m: string, s: string)
    requires Holds(m, 0, s)
    ensures |s| <= |m|
  {
  }

  lemma Unfold(ws: seq<string>, m: string)
    requires Holds(m, 0, Encode(Words(ws)))
    ensures ValueOf(Words(ws), 0) == VArray(ValuesOf(Words(ws).elems, |ArrayHead(|ws|)|))
    ensures |ValuesOf(Words(ws).elems, |ArrayHead(|ws|)|)| == |ws|
    ensures Holds(m, |ArrayHead(|ws|)|, EncodeAll(Words(ws).elems))
  {
    hide Holds, ArrayHead;
    HoldsParts(m, 0, ArrayHead(|ws|), EncodeAll(Words(ws).elems));
    ValuesCounted(Words(ws).elems, |ArrayHead(|ws|)|);
  }

  lemma {:induction false} ValuesCounted(rs: seq<Reply>, p: nat)
    ensures |ValuesOf(rs, p)| == |rs|
    decreases |rs|
  {
    if rs != [] {
      ValuesCounted(rs[1..], p + |Encode(rs[0])|);
    }
  }

  // ---------- namespaces ----------

  predicate Overlap(n1: string, n2: string) {
    n1 + SEPARATOR <= n2 + SEPARATOR || n2 + SEPARATOR <= n1 + SEPARATOR
  }

  /** In one namespace, different tuple names have different Redis keys. */
  lemma KeysDiffer(ns: string, k1: string, k2: string)
    ensures Qualified(ns, k1) == Qualified(ns, k2) <==> k1 == k2
  {
    var n := |ns + SEPARATOR|;
    assert Qualified(ns, k1)[n..] == k1 && Qualified(ns, k2)[n..] == k2;
  }

  /**
    Two namespaces can share a Redis key exactly if one name and the separator begin the other's:
    namespaces are not kept apart by all names.
   */
  lemma NamespacesShareKeys(n1: string, n2: string)
    ensures (exists k1, k2 :: Qualified(n1, k1) == Qualified(n2, k2)) <==> Overlap(n1, n2)
  {
    hide Overlap;
    if Overlap(n1, n2) {
      SharedKey(n1, n2);
    }
    forall k1, k2 | Qualified(n1, k1) == Qualified(n2, k2)
      ensures Overlap(n1, n2)
    {
      OverlapFrom(n1, n2, k1, k2);
    }
  }

  lemma SharedKey(n1: string, n2: string)
    requires Overlap(n1, n2)
    ensures exists k1, k2 :: Qualified(n1, k1) == Qualified(n2, k2)
  {
    var a, b := n1 + SEPARATOR, n2 + SEPARATOR;
    if a <= b {
      assert a + b[|a|..] == b;
      assert Qualified(n1, b[|a|..]) == Qualified(n2, "");
    } else {
      assert b + a[|b|..] == a;
      assert Qualified(n1, "") == Qualified(n2, a[|b|..]);
    }
  }

  lemma OverlapFrom(n1: string, n2: string, k1: string, k2: string)
    requires Qualified(n1, k1) == Qualified(n2, k2)
    ensures Overlap(n1, n2)
  {
    var a, b := n1 + SEPARATOR, n2 + SEPARATOR;
    var q := Qualified(n1, k1);
    assert q[..|a|] == a && q[..|b|] == b;
    if |a| <= |b| {
      assert q[..|a|] == q[..|b|][..|a|];
    } else {
      assert q[..|b|] == q[..|a|][..|b|];
    }
  }

  /** Such names exist: a tuple of namespace "a" is also a tuple of namespace "a::b". */
  lemma NamespacesOverlap()
    ensures "a" != "a::b" && Qualified("a", "b::c") == Qualified("a::b", "c")
    ensures Overlap("a", "a::b")
  {
    assert "a" + SEPARATOR <= "a::b" + SEPARATOR;
    assert |"a"| != |"a::b"|;
  }

  // ---------- what a directory lists ----------

  predicate SeparatorAt(s: string, i: nat) {
    i + 1 < |s| && s[i] == ':' && s[i + 1] == ':'
  }

  /** The name of the namespace neither holds the separator nor ends with its first character. */
  ghost predicate Plainly(ns: string) {
    (forall i: nat :: !SeparatorAt(ns, i)) && !(|ns| > 0 && ns[|ns| - 1] == ':')
  }

  lemma PlainlyShift(ns: string)
    requires ns != "" && !SeparatorAt(ns, 0)
    ensures |ns| > 1 ==> (Plainly(ns) <==> Plainly(ns[1..]))
    ensures |ns| == 1 ==> (Plainly(ns) <==> ns[0] != ':')
  {
    forall i: nat ensures SeparatorAt(ns[1..], i) <==> SeparatorAt(ns, i + 1) {
    }
    forall i: nat | Plainly(ns[1..]) && i > 0 ensures !SeparatorAt(ns, i) {
      assert !SeparatorAt(ns[1..], i - 1);
    }
  }

  lemma {:induction false} ListedPlainly(ns: string, key: string)
    requires Plainly(ns)
    ensures Listing.NameOf(Qualified(ns, key)) == Listing.Name(key)
    decreases |ns|
  {
    var q := Qualified(ns, key);
    if ns == "" {
      assert q == "::" + key && q[2..] == key;
    } else {
      assert !SeparatorAt(ns, 0);
      assert |ns| > 1 ==> q[1] == ns[1];
      assert q[0] == ns[0] && q[1..] == Qualified(ns[1..], key);
      PlainlyShift(ns);
      ListedPlainly(ns[1..], key);
    }
  }

  lemma {:induction false} ListedLonger(ns: string, key: string)
    requires !Plainly(ns)
    ensures var name := Listing.NameOf(Qualified(ns, key)); name.Name? && |name.text| > |key|
    decreases |ns|
  {
    var q := Qualified(ns, key);
    assert ns != "";
    assert q[0] == ns[0] && q[1] == if |ns| > 1 then ns[1] else ':';
    if q[0] == ':' && q[1] == ':' {
      assert Listing.NameOf(q) == Listing.Name(q[2..]);
    } else {
      assert q[1..] == Qualified(ns[1..], key);
      PlainlyShift(ns);
      ListedLonger(ns[1..], key);
    }
  }

  /**
    A tuple that was put is listed by a directory under its own name if and only if the name of its
    namespace neither holds the separator nor ends with its first character.
   */
  lemma ListedNameIff(ns: string, key: string)
    ensures Listing.NameOf(Qualified(ns, key)) == Listing.Name(key) <==> Plainly(ns)
  {
    hide Plainly, Listing.NameOf, Qualified;
    if Plainly(ns) {
      ListedPlainly(ns, key);
    } else {
      ListedLonger(ns, key);
    }
  }

  /** A namespace whose name ends with a colon lists its tuples under other names. */
  lemma ColonIsListed(key: string)
    ensures Listing.NameOf(Qualified("a:", key)) == Listing.Name(":" + key)
    ensures Listing.NameOf(Qualified("a:", key)) != Listing.Name(key)
  {
    var q := Qualified("a:", key);
    assert q[0] == 'a' && q[1..][0] == ':' && q[1..][1] == ':';
    assert q[1..][2..] == ":" + key;
    assert |":" + key| != |key|;
  }
}
