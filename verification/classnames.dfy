/** The conditional class-name helper of the input field: its arguments are
    strings, booleans or undefined; the truthy ones are stringified and joined
    with single spaces. */
module ClassNames {
  import JsValues

  datatype ClassArg = Str(s: string) | Flag(b: bool) | Undefined

  /** JavaScript truthiness: a non-empty string, the literal true. */
  predicate Truthy(a: ClassArg) {
    match a
    case Str(s) => JsValues.Truthy(s)
    case Flag(b) => b
    case Undefined => false
  }

  /** JavaScript `String(a)`, as `join` applies it to each kept element. */
  function Text(a: ClassArg): string {
    match a
    case Str(s) => s
    case Flag(b) => if b then "true" else "false"
    case Undefined => "undefined"
  }

  /** The stringified truthy arguments, in argument order. */
  function Kept(args: seq<ClassArg>): (ws: seq<string>)
    ensures |ws| <= |args|
    ensures forall k :: 0 <= k < |ws| ==> ws[k] != ""
  {
    if |args| == 0 then []
    else (if Truthy(args[0]) then [Text(args[0])] else []) + Kept(args[1..])
  }

  /** `words.join(" ")`. Splitting the result at every space gives the
      pieces of each word in turn, so the words are separated by exactly one
      space; a join of non-empty words is empty only when there are none. */
  function Join(words: seq<string>): (r: string)
    ensures (forall k :: 0 <= k < |words| ==> words[k] != "") ==> (r == "" <==> |words| == 0)
    ensures |words| > 0 ==> Pieces(r) == PiecesOfAll(words)
  {
    if |words| == 0 then ""
    else if |words| == 1 then
      assert PiecesOfAll(words[1..]) == [];
      words[0]
    else
      var rest := Join(words[1..]);
      PiecesAppend(words[0], rest);
      words[0] + " " + rest
  }

  /** `cn(...args)`: empty exactly when no argument is truthy; splitting it at
      its spaces gives the pieces of the kept words, in argument order. */
  function Cn(args: seq<ClassArg>): (r: string)
    ensures r == "" <==> forall k :: 0 <= k < |args| ==> !Truthy(args[k])
    ensures Split(r) == PiecesOfAll(Kept(args))
  {
    KeptEmptyIff(args);
    Join(Kept(args))
  }

  /** No word survives iff no argument is truthy. */
  lemma {:induction false} KeptEmptyIff(args: seq<ClassArg>)
    ensures |Kept(args)| == 0 <==> forall k :: 0 <= k < |args| ==> !Truthy(args[k])
    decreases |args|
  {
    if |args| > 0 {
      KeptEmptyIff(args[1..]);
      if !Truthy(args[0]) {
        forall k | 1 <= k < |args| ensures args[k] == args[1..][k - 1] { }
      }
    }
  }

  /** Kept is a homomorphism from argument lists: a single argument survives
      exactly when it is truthy, and concatenation is preserved, so the kept
      words are the truthy arguments in their original order. */
  lemma {:induction false} KeptAppend(a: seq<ClassArg>, b: seq<ClassArg>)
    ensures Kept(a + b) == Kept(a) + Kept(b)
    decreases |a|
  {
    if |a| == 0 {
      assert a + b == b;
    } else {
      assert (a + b)[1..] == a[1..] + b;
      KeptAppend(a[1..], b);
    }
  }

  lemma KeptSingle(a: ClassArg)
    ensures Kept([a]) == if Truthy(a) then [Text(a)] else []
  {
    assert [a][1..] == [];
  }

  /** Dropping a falsy argument anywhere does not change the class string. */
  lemma CnDropsFalsy(a: seq<ClassArg>, x: ClassArg, b: seq<ClassArg>)
    requires !Truthy(x)
    ensures Cn(a + [x] + b) == Cn(a + b)
  {
    KeptAppend(a + [x], b);
    KeptAppend(a, [x]);
    KeptSingle(x);
    assert Kept(a) + [] == Kept(a);
    KeptAppend(a, b);
  }

  /** The class string of a non-empty class and one more argument: the
      second is appended after a single space exactly when it is truthy. */
  lemma CnPair(x: string, y: ClassArg)
    requires x != ""
    ensures Cn([Str(x), y]) == if Truthy(y) then x + " " + Text(y) else x
  {
    assert [Str(x), y] == [Str(x)] + [y];
    KeptAppend([Str(x)], [y]);
    KeptSingle(Str(x));
    KeptSingle(y);
    var ws := Kept([Str(x), y]);
    if Truthy(y) {
      assert ws == [x, Text(y)];
      assert ws[1..] == [Text(y)];
      assert Join(ws[1..]) == Text(y);
      assert Join(ws) == x + " " + Text(y);
    } else {
      assert ws == [x];
    }
  }

  // ---------------------------------------------------------------------
  // Splitting at spaces, the inverse of Join
  // ---------------------------------------------------------------------

  predicate SpaceFree(w: string) {
    forall k :: 0 <= k < |w| ==> w[k] != ' '
  }

  /** The index of the first space in s, or |s| when there is none. */
  function FirstSpace(s: string): (k: nat)
    ensures k <= |s|
    ensures forall j :: 0 <= j < k ==> s[j] != ' '
    ensures k < |s| ==> s[k] == ' '
  {
    if |s| == 0 then 0
    else if s[0] == ' ' then 0
    else 1 + FirstSpace(s[1..])
  }

  /** The pieces of s between single spaces (at least one piece; a leading,
      trailing or doubled space yields an empty piece). */
  function Pieces(s: string): seq<string>
    decreases |s|
  {
    var k := FirstSpace(s);
    if k == |s| then [s] else [s[..k]] + Pieces(s[k + 1..])
  }

  function Split(s: string): seq<string> {
    if s == "" then [] else Pieces(s)
  }

  /** The pieces of each word in turn. */
  function PiecesOfAll(ws: seq<string>): seq<string> {
    if |ws| == 0 then [] else Pieces(ws[0]) + PiecesOfAll(ws[1..])
  }

  /** The first space of `w + " " + rest` is the first space of w, or the
      joining space when w has none. */
  lemma FirstSpaceOfJoin(w: string, rest: string)
    ensures FirstSpace(w + " " + rest) == FirstSpace(w)
  {
    var s := w + " " + rest;
    var k := FirstSpace(w);
    assert forall j :: 0 <= j < |w| ==> s[j] == w[j];
    assert s[k] == ' ';
  }

  /** Splitting `w + " " + rest` gives the pieces of w followed by those of
      rest, whatever spaces w holds. */
  lemma {:induction false} PiecesAppend(w: string, rest: string)
    ensures Pieces(w + " " + rest) == Pieces(w) + Pieces(rest)
    decreases |w|
  {
    var s := w + " " + rest;
    var k := FirstSpace(w);
    FirstSpaceOfJoin(w, rest);
    assert s[..k] == w[..k];
    assert Pieces(s) == [s[..k]] + Pieces(s[k + 1..]);
    if k == |w| {
      assert w[..k] == w;
      assert Pieces(w) == [w];
      assert s[k + 1..] == rest;
    } else {
      assert Pieces(w) == [w[..k]] + Pieces(w[k + 1..]);
      assert s[k + 1..] == w[k + 1..] + " " + rest;
      PiecesAppend(w[k + 1..], rest);
    }
  }

  /** Space-free words are their own pieces. */
  lemma {:induction false} PiecesOfSpaceFree(ws: seq<string>)
    requires forall k :: 0 <= k < |ws| ==> SpaceFree(ws[k])
    ensures PiecesOfAll(ws) == ws
    decreases |ws|
  {
    if |ws| > 0 {
      assert FirstSpace(ws[0]) == |ws[0]|;
      PiecesOfSpaceFree(ws[1..]);
      assert ws == [ws[0]] + ws[1..];
    }
  }

  /** The special case of single-class arguments: when no kept word contains a
      space, splitting the class string gives back the kept words, one per
      truthy argument. Both calls of `cn` in the input field pass multi-class
      strings, so they fall under the general clause of Cn instead. */
  lemma SplitCn(args: seq<ClassArg>)
    requires forall k :: 0 <= k < |Kept(args)| ==> SpaceFree(Kept(args)[k])
    ensures Split(Cn(args)) == Kept(args)
  {
    PiecesOfSpaceFree(Kept(args));
  }
}
