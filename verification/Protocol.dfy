/** The table of request stages: command templates, reply counts, and what each stage says to Redis. */
module Protocol {
  import opened Resp

  datatype Opcode =
    | Put | Get | Read | Move | Remove | Directory
    | NsCreate | NsAttach | NsDetach | NsDelete | NsQuery | Iterator

  /** A template is text with places %0, %1, ... for arguments. */
  datatype Piece = Text(s: string) | Place(i: nat)

  /** `arrayLen` arguments go into `template`; `respCnt` replies come back. */
  datatype StageSpec = StageSpec(arrayLen: nat, respCnt: nat, final: bool, result: bool, template: seq<Piece>)

  predicate HasStage(op: Opcode, stage: nat) {
    match op
    case NsDetach => stage < 4
    case Move => stage < 3
    case Directory => stage < 2
    case NsCreate => stage < 2
    case NsAttach => stage < 2
    case NsDelete => stage < 2
    case _ => stage == 0
  }

  const SCAN_TEMPLATE: seq<Piece> :=
    [Text("*6\r\n"), Text("$4\r\nSCAN\r\n"), Place(0), Text("$5\r\nMATCH\r\n"), Place(1), Text("$5\r\nCOUNT\r\n"), Text("$2\r\n10\r\n")]
  const DEL_TEMPLATE: seq<Piece> := [Text("*2\r\n"), Text("$3\r\nDEL\r\n"), Place(0)]
  const DELCHECK_TEMPLATE: seq<Piece> :=
    [Text("*1\r\n"), Text("$5\r\nMULTI\r\n"),
     Text("*4\r\n"), Text("$7\r\nHINCRBY\r\n"), Place(0), Text("$6\r\nrefcnt\r\n"), Place(1),
     Text("*4\r\n"), Text("$5\r\nHMGET\r\n"), Place(0), Text("$6\r\nrefcnt\r\n"), Text("$5\r\nflags\r\n"),
     Text("*1\r\n"), Text("$4\r\nEXEC\r\n")]

  function StageOf(op: Opcode, stage: nat): StageSpec
    requires HasStage(op, stage)
  {
    match op
    case Put => StageSpec(2, 1, true, true, [Text("*3\r\n"), Text("$5\r\nRPUSH\r\n"), Place(0), Place(1)])
    case Get => StageSpec(1, 1, true, true, [Text("*2\r\n"), Text("$4\r\nLPOP\r\n"), Place(0)])
    case Read => StageSpec(2, 1, true, true, [Text("*3\r\n"), Text("$6\r\nLINDEX\r\n"), Place(0), Place(1)])
    case Directory =>
      if stage == 0 then StageSpec(1, 1, false, false, [Text("*2\r\n"), Text("$7\r\nHGETALL\r\n"), Place(0)])
      else StageSpec(2, 1, true, true, SCAN_TEMPLATE)
    case NsCreate =>
      if stage == 0 then
        StageSpec(3, 1, false, false, [Text("*4\r\n"), Text("$6\r\nHSETNX\r\n"), Place(0), Place(1), Place(2)])
      else
        StageSpec(7, 1, true, true,
                  [Text("*8\r\n"), Text("$5\r\nHMSET\r\n"), Place(0), Place(1), Place(2), Place(3), Place(4), Place(5), Place(6)])
    case NsAttach =>
      if stage == 0 then StageSpec(1, 1, false, false, [Text("*2\r\n"), Text("$6\r\nEXISTS\r\n"), Place(0)])
      else
        StageSpec(2, 1, true, true,
                  [Text("*4\r\n"), Text("$7\r\nHINCRBY\r\n"), Place(0), Text("$6\r\nrefcnt\r\n"), Place(1)])
    case NsQuery => StageSpec(1, 1, true, true, [Text("*2\r\n"), Text("$7\r\nHGETALL\r\n"), Place(0)])
    case NsDetach =>
      if stage == 0 then StageSpec(2, 4, false, false, DELCHECK_TEMPLATE)
      else if stage == 1 then StageSpec(2, 1, false, false, SCAN_TEMPLATE)
      else StageSpec(1, 1, stage == 3, stage == 3, DEL_TEMPLATE)
    case NsDelete =>
      if stage == 0 then
        StageSpec(1, 1, false, true,
                  [Text("*4\r\n"), Text("$5\r\nHMGET\r\n"), Place(0), Text("$6\r\nrefcnt\r\n"), Text("$5\r\nflags\r\n")])
      else
        StageSpec(3, 1, true, false, [Text("*4\r\n"), Text("$4\r\nHSET\r\n"), Place(0), Place(1), Place(2)])
    case Remove => StageSpec(1, 1, true, true, DEL_TEMPLATE)
    case Move =>
      if stage == 0 then StageSpec(1, 1, false, false, [Text("*2\r\n"), Text("$4\r\nDUMP\r\n"), Place(0)])
      else if stage == 1 then
        StageSpec(3, 1, false, false,
                  [Text("*4\r\n"), Text("$7\r\nRESTORE\r\n"), Place(0), Text("$1\r\n0\r\n"), Place(1), Place(2), Text("\r\n")])
      else StageSpec(1, 1, true, true, DEL_TEMPLATE)
    case Iterator => StageSpec(2, 1, true, true, SCAN_TEMPLATE)
  }

  // ---------- the template string and its expansion ----------

  /** The string in the table: `Place(i)` stands there as '%' and a digit. */
  function Template(ps: seq<Piece>): string
    requires PlacesBelow(ps, 10)
    decreases |ps|
  {
    if ps == [] then "" else
    (match ps[0]
     case Text(s) => s
     case Place(i) => "%" + [Digit(i)]) + Template(ps[1..])
  }

  predicate PlacesBelow(ps: seq<Piece>, n: nat) {
    forall k :: 0 <= k < |ps| && ps[k].Place? ==> ps[k].i < n
  }

  predicate Plain(s: string) {
    forall k :: 0 <= k < |s| ==> s[k] != '%'
  }

  predicate PlainPieces(ps: seq<Piece>) {
    forall k :: 0 <= k < |ps| && ps[k].Text? ==> Plain(ps[k].s)
  }

  /** A NULL argument is None. */
  datatype Option<T> = Some(value: T) | None

  datatype Expansion = Expanded(bytes: string) | BadMessage

  /** What a template string expands to; a NULL argument ends the expansion and the rest is taken literally. */
  function Expand(t: string, arrayLen: nat, args: seq<Option<string>>): Expansion
    requires arrayLen <= |args|
    decreases |t|
  {
    if t == "" then Expanded("")
    else if t[0] != '%' then Prepend([t[0]], Expand(t[1..], arrayLen, args))
    else
      var i := if |t| > 1 then t[1] as int - '0' as int else -1;
      if i < 0 || i >= arrayLen then BadMessage
      else match args[i]
        case None => Expanded(t)
        case Some(bytes) => Prepend(bytes, Expand(t[2..], arrayLen, args))
  }

  function Prepend(s: string, e: Expansion): Expansion {
    match e
    case BadMessage => BadMessage
    case Expanded(bytes) => Expanded(s + bytes)
  }

  /** The template with every place filled. */
  function Fill(ps: seq<Piece>, args: seq<string>): string
    requires PlacesBelow(ps, |args|)
    decreases |ps|
  {
    if ps == [] then "" else
    (match ps[0]
     case Text(s) => s
     case Place(i) => args[i]) + Fill(ps[1..], args)
  }

  function Present(args: seq<string>): seq<Option<string>> {
    seq(|args|, i requires 0 <= i < |args| => Some(args[i]))
  }

  lemma {:induction false} ExpandText(s: string, rest: string, n: nat, args: seq<Option<string>>)
    requires Plain(s) && n <= |args|
    ensures Expand(s + rest, n, args) == Prepend(s, Expand(rest, n, args))
    decreases |s|
  {
    if s == "" {
      assert s + rest == rest;
      assert Expand(rest, n, args).Expanded? ==> "" + Expand(rest, n, args).bytes == Expand(rest, n, args).bytes;
    } else {
      assert (s + rest)[1..] == s[1..] + rest;
      ExpandText(s[1..], rest, n, args);
      var e := Expand(rest, n, args);
      assert e.Expanded? ==> [s[0]] + (s[1..] + e.bytes) == s + e.bytes;
    }
  }

  lemma ExpandPlace(i: nat, rest: string, n: nat, args: seq<string>)
    requires i < n <= |args| && n <= 10
    ensures Expand("%" + [Digit(i)] + rest, n, Present(args)) == Prepend(args[i], Expand(rest, n, Present(args)))
  {
    var t := "%" + [Digit(i)] + rest;
    assert t[0] == '%' && t[1] == Digit(i) && t[2..] == rest;
  }

  /** The expansion of a template is the template with each %i replaced by argument i. */
  lemma {:induction false} ExpandFills(ps: seq<Piece>, n: nat, args: seq<string>)
    requires PlainPieces(ps) && PlacesBelow(ps, n) && n <= |args| && n <= 10
    ensures Expand(Template(ps), n, Present(args)) == Expanded(Fill(ps, args))
    decreases |ps|
  {
    hide Expand;
    if ps == [] {
      ExpandEmpty(n, Present(args));
    } else {
      ExpandFills(ps[1..], n, args);
      match ps[0]
      case Text(s) =>
        ExpandText(s, Template(ps[1..]), n, Present(args));
      case Place(i) =>
        ExpandPlace(i, Template(ps[1..]), n, args);
    }
  }

  lemma ExpandEmpty(n: nat, args: seq<Option<string>>)
    requires n <= |args|
    ensures Expand("", n, args) == Expanded("")
  {
  }
}
