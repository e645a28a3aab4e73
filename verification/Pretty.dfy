/**
 Pretty-printing of binary expressions: parentheses are dropped where precedence makes them
 unnecessary, and also on the right of an operator that is called fully associative. The
 printed tokens are read again with the precedence table and left associativity.
 */
module Pretty {
  import opened Values
  import Arithmetic

  datatype Op =
    | Bitand | Bitor | Bitxor | Plus | Minus | Mult | Div | FloorDiv | Mod | Pow | Concat | LShift | RShift
    | JSONFetchVal | JSONFetchText | JSONFetchValPath | JSONFetchTextPath

  const LOOSEST: nat := 8

  /** binaryOpPrio: the smaller, the tighter. */
  function Prio(op: Op): (p: nat)
    ensures 1 <= p <= LOOSEST
  {
    match op
    case Pow => 1
    case Mult => 2 case Div => 2 case FloorDiv => 2 case Mod => 2
    case Plus => 3 case Minus => 3
    case LShift => 4 case RShift => 4
    case Bitand => 5
    case Bitxor => 6
    case Bitor => 7
    case _ => 8
  }

  /** binaryOpFullyAssoc. */
  predicate FullyAssoc(op: Op) {
    op.Mult? || op.Plus? || op.Bitand? || op.Bitxor? || op.Bitor? || op.Concat?
  }

  predicate IsPadded(op: Op) {
    !op.JSONFetchVal? && !op.JSONFetchText? && !op.JSONFetchValPath? && !op.JSONFetchTextPath?
  }

  /** Names bind tighter than any operator and lose their parentheses; constants keep theirs. */
  datatype Tree = Name(id: nat) | Constant(id: nat) | Paren(inner: Tree) | Binary(op: Op, left: Tree, right: Tree)

  datatype Token = NameToken(id: nat) | ConstantToken(id: nat) | OpToken(op: Op) | Open | Close

  // ---------------------------------------------------------------------------
  // Trees and their tokens
  // ---------------------------------------------------------------------------

  function Text(t: Tree): seq<Token> {
    match t
    case Name(n) => [NameToken(n)]
    case Constant(n) => [ConstantToken(n)]
    case Paren(e) => [Open] + Text(e) + [Close]
    case Binary(op, l, r) => Text(l) + [OpToken(op)] + Text(r)
  }

  /** The priority of the outermost operator, 0 if there is none. */
  function Top(t: Tree): (p: nat)
    ensures p <= LOOSEST
  {
    if t.Binary? then Prio(t.op) else 0
  }

  /** A tree as the grammar builds it: all operators associate to the left. */
  predicate Shaped(t: Tree) {
    match t
    case Name(_) => true
    case Constant(_) => true
    case Paren(e) => Shaped(e)
    case Binary(op, l, r) => Shaped(l) && Shaped(r) && Top(l) <= Prio(op) && Top(r) < Prio(op)
  }

  // ---------------------------------------------------------------------------
  // A reader for the grammar: precedence climbing
  // ---------------------------------------------------------------------------

  type Reading = Option<(Tree, seq<Token>)>

  function ReadPrimary(ts: seq<Token>): (r: Reading)
    ensures r.Some? ==> |r.value.1| < |ts|
    decreases |ts|, 0
  {
    if ts == [] then None
    else match ts[0]
      case NameToken(n) => Some((Name(n), ts[1..]))
      case ConstantToken(n) => Some((Constant(n), ts[1..]))
      case OpToken(_) => None
      case Close => None
      case Open =>
        match ReadExpr(ts[1..], LOOSEST)
        case None => None
        case Some((e, rest)) => if rest == [] || rest[0] != Close then None else Some((Paren(e), rest[1..]))
  }

  /** An expression whose operators are all at most of the given priority. */
  function ReadExpr(ts: seq<Token>, most: nat): (r: Reading)
    ensures r.Some? ==> |r.value.1| < |ts|
    decreases |ts|, 2
  {
    match ReadPrimary(ts)
    case None => None
    case Some((e, rest)) => ReadOperators(e, rest, most)
  }

  /** Extends the expression on the left as long as an operator of the given priority follows. */
  function ReadOperators(e: Tree, ts: seq<Token>, most: nat): (r: Reading)
    ensures r.Some? ==> |r.value.1| <= |ts|
    decreases |ts|, 1
  {
    if ts == [] || !ts[0].OpToken? || Prio(ts[0].op) > most then Some((e, ts))
    else match ReadExpr(ts[1..], Prio(ts[0].op) - 1)
      case None => None
      case Some((r, rest)) => ReadOperators(Binary(ts[0].op, e, r), rest, most)
  }

  function Read(ts: seq<Token>): Option<Tree> {
    match ReadExpr(ts, LOOSEST)
    case None => None
    case Some((e, rest)) => if rest == [] then Some(e) else None
  }

  /** What follows an expression does not bind tighter than its outermost operator. */
  predicate LooserNext(t: Tree, rest: seq<Token>) {
    rest != [] && rest[0].OpToken? ==> Prio(rest[0].op) >= Top(t)
  }

  lemma {:induction false} ReadShaped(t: Tree, rest: seq<Token>, most: nat)
    requires Shaped(t) && Top(t) <= most && LooserNext(t, rest)
    ensures ReadExpr(Text(t) + rest, most) == ReadOperators(t, rest, most)
    decreases t, 0
  {
    var ts := Text(t) + rest;
    match t
    case Name(n) => assert ts[0] == NameToken(n) && ts[1..] == rest;
    case Constant(n) => assert ts[0] == ConstantToken(n) && ts[1..] == rest;
    case Paren(e) =>
      hide ReadExpr;
      ReadParen(e, rest);
      ReadFirst(ts, most);
    case Binary(op, l, r) =>
      hide ReadExpr, ReadPrimary;
      var next := [OpToken(op)] + (Text(r) + rest);
      assert ts == Text(l) + next;
      ReadShaped(l, next, most);
      assert next[0] == OpToken(op) && next[1..] == Text(r) + rest;
      ReadShaped(r, rest, Prio(op) - 1);
      assert ReadOperators(r, rest, Prio(op) - 1) == Some((r, rest));
  }

  lemma {:induction false} ReadFirst(ts: seq<Token>, most: nat)
    ensures var p := ReadPrimary(ts);
            ReadExpr(ts, most) == if p.None? then None else ReadOperators(p.value.0, p.value.1, most)
  {
  }

  lemma {:induction false} ReadParen(e: Tree, rest: seq<Token>)
    requires Shaped(e)
    ensures ReadPrimary(Text(Paren(e)) + rest) == Some((Paren(e), rest))
    decreases e, 1
  {
    var ts := Text(Paren(e)) + rest;
    var inner := [Close] + rest;
    assert ts[0] == Open && ts[1..] == Text(e) + inner;
    hide ReadExpr;
    ReadShaped(e, inner, LOOSEST);
    assert ReadOperators(e, inner, LOOSEST) == Some((e, inner));
    assert inner[1..] == rest;
  }

  /** The reader gives back every tree of the grammar from its tokens. */
  lemma {:induction false} ReadText(t: Tree)
    requires Shaped(t)
    ensures Read(Text(t)) == Some(t)
  {
    assert Text(t) + [] == Text(t);
    ReadShaped(t, [], LOOSEST);
  }

  // ---------------------------------------------------------------------------
  // Printing
  // ---------------------------------------------------------------------------

  function StripParens(e: Tree): (r: Tree)
    ensures !r.Paren? && (r == e || r < e)
  {
    if e.Paren? then StripParens(e.inner) else e
  }

  /** peelBinaryOperand. */
  function Peel(e: Tree, simplify: bool, sameLevel: bool, parenPrio: nat): (r: Tree)
    ensures r == e || r < e
  {
    var stripped := StripParens(e);
    if !simplify then e
    else match stripped
      case Binary(op, _, _) =>
        if Prio(op) < parenPrio || (sameLevel && Prio(op) == parenPrio) then stripped else e
      case Name(_) => stripped
      case _ => e
  }

  function PeelLeft(op: Op, e: Tree, simplify: bool): (r: Tree)
    ensures r == e || r < e
  {
    Peel(e, simplify, true, Prio(op))
  }

  function PeelRight(op: Op, e: Tree, simplify: bool): (r: Tree)
    ensures r == e || r < e
  {
    Peel(e, simplify, FullyAssoc(op), Prio(op))
  }

  /** The tokens of a doc: BinaryExpr.doc, ParenExpr.doc and the leaves. */
  function Doc(e: Tree, simplify: bool): seq<Token>
    decreases e, 0
  {
    match e
    case Name(n) => [NameToken(n)]
    case Constant(n) => [ConstantToken(n)]
    case Paren(x) => [Open] + Doc(x, simplify) + [Close]
    case Binary(op, l, r) =>
      var left, right := PeelLeft(op, l, simplify), PeelRight(op, r, simplify);
      if !IsPadded(op) then Doc(left, simplify) + [OpToken(op)] + Doc(right, simplify)
      else Join(op, FlattenOp(right, op, simplify, FlattenOp(left, op, simplify, [])))
  }

  /** flattenOp: the operands below e that are joined by op, appended to those found before. */
  function FlattenOp(e: Tree, op: Op, simplify: bool, found: seq<seq<Token>>): (r: seq<seq<Token>>)
    ensures |r| > |found|
    decreases e, 1
  {
    if e.Binary? && e.op == op then
      FlattenOp(PeelRight(op, e.right, simplify), op, simplify, FlattenOp(PeelLeft(op, e.left, simplify), op, simplify, found))
    else found + [Doc(e, simplify)]
  }

  /** The operands with the operator between them. */
  function Join(op: Op, docs: seq<seq<Token>>): seq<Token> {
    if docs == [] then []
    else if |docs| == 1 then docs[0]
    else Join(op, docs[..|docs| - 1]) + [OpToken(op)] + docs[|docs| - 1]
  }

  /** What is printed, operator by operator. */
  function Nested(e: Tree, simplify: bool): seq<Token> {
    match e
    case Name(n) => [NameToken(n)]
    case Constant(n) => [ConstantToken(n)]
    case Paren(x) => [Open] + Nested(x, simplify) + [Close]
    case Binary(op, l, r) =>
      Nested(PeelLeft(op, l, simplify), simplify) + [OpToken(op)] + Nested(PeelRight(op, r, simplify), simplify)
  }

  /** What stands before the next operand. */
  function Before(op: Op, docs: seq<seq<Token>>): seq<Token> {
    if docs == [] then [] else Join(op, docs) + [OpToken(op)]
  }

  lemma {:induction false} ChainStep(e: Tree, op: Op, simplify: bool, found: seq<seq<Token>>)
    requires e.Binary? && e.op == op
    ensures var left, right := PeelLeft(op, e.left, simplify), PeelRight(op, e.right, simplify);
            && FlattenOp(e, op, simplify, found) == FlattenOp(right, op, simplify, FlattenOp(left, op, simplify, found))
            && Nested(e, simplify) == Nested(left, simplify) + [OpToken(op)] + Nested(right, simplify)
  {
  }

  lemma {:induction false} ChainEnd(e: Tree, op: Op, simplify: bool, found: seq<seq<Token>>)
    requires !(e.Binary? && e.op == op)
    ensures FlattenOp(e, op, simplify, found) == found + [Doc(e, simplify)]
  {
  }

  lemma {:induction false} LastDoc(op: Op, found: seq<seq<Token>>, doc: seq<Token>)
    ensures Join(op, found + [doc]) == Before(op, found) + doc
  {
    var docs := found + [doc];
    assert docs[..|docs| - 1] == found;
    if found == [] { assert Before(op, found) + doc == doc; }
  }

  /** Flattening a chain of one operator prints the same tokens as nesting it. */
  lemma {:induction false} FlattenIsNested(e: Tree, op: Op, simplify: bool, found: seq<seq<Token>>)
    ensures Join(op, FlattenOp(e, op, simplify, found)) == Before(op, found) + Nested(e, simplify)
    decreases e, 1
  {
    hide Doc, FlattenOp, Nested, Join, Peel, PeelLeft, PeelRight;
    if e.Binary? && e.op == op {
      ChainStep(e, op, simplify, found);
      var left, right := PeelLeft(op, e.left, simplify), PeelRight(op, e.right, simplify);
      FlattenIsNested(left, op, simplify, found);
      FlattenIsNested(right, op, simplify, FlattenOp(left, op, simplify, found));
      var l, r := Nested(left, simplify), Nested(right, simplify);
      assert Before(op, found) + l + [OpToken(op)] + r == Before(op, found) + (l + [OpToken(op)] + r);
    } else {
      DocIsNested(e, simplify);
      ChainEnd(e, op, simplify, found);
      LastDoc(op, found, Doc(e, simplify));
    }
  }

  lemma {:induction false} BinaryDoc(e: Tree, simplify: bool)
    requires e.Binary?
    ensures var left, right := PeelLeft(e.op, e.left, simplify), PeelRight(e.op, e.right, simplify);
            Doc(e, simplify) == if IsPadded(e.op) then Join(e.op, FlattenOp(e, e.op, simplify, []))
                                else Doc(left, simplify) + [OpToken(e.op)] + Doc(right, simplify)
  {
  }

  lemma {:induction false} DocIsNested(e: Tree, simplify: bool)
    ensures Doc(e, simplify) == Nested(e, simplify)
    decreases e, 0
  {
    match e
    case Name(_) =>
    case Constant(_) =>
    case Paren(x) => DocIsNested(x, simplify);
    case Binary(op, l, r) =>
      hide Doc, FlattenOp, Nested, Join, Peel, PeelLeft, PeelRight;
      BinaryDoc(e, simplify);
      ChainStep(e, op, simplify, []);
      if IsPadded(op) {
        var left := PeelLeft(op, l, simplify);
        FlattenIsNested(left, op, simplify, []);
        FlattenIsNested(PeelRight(op, r, simplify), op, simplify, FlattenOp(left, op, simplify, []));
        assert Before(op, []) + Nested(left, simplify) == Nested(left, simplify);
      } else {
        DocIsNested(PeelLeft(op, l, simplify), simplify);
        DocIsNested(PeelRight(op, r, simplify), simplify);
      }
  }

  // ---------------------------------------------------------------------------
  // The tree that is read again
  // ---------------------------------------------------------------------------

  /** l op r, where a chain of the same priority on the right is read from the left. */
  function Graft(op: Op, l: Tree, r: Tree): Tree {
    if r.Binary? && Prio(r.op) == Prio(op) then Binary(r.op, Graft(op, l, r.left), r.right)
    else Binary(op, l, r)
  }

  function Reread(e: Tree, simplify: bool): Tree {
    match e
    case Name(_) => e
    case Constant(_) => e
    case Paren(x) => Paren(Reread(x, simplify))
    case Binary(op, l, r) =>
      Graft(op, Reread(PeelLeft(op, l, simplify), simplify), Reread(PeelRight(op, r, simplify), simplify))
  }

  lemma {:induction false} GraftShaped(op: Op, l: Tree, r: Tree)
    requires Shaped(l) && Shaped(r) && Top(l) <= Prio(op) && Top(r) <= Prio(op)
    ensures Shaped(Graft(op, l, r)) && Top(Graft(op, l, r)) == Prio(op)
  {
    if r.Binary? && Prio(r.op) == Prio(op) { GraftShaped(op, l, r.left); }
  }

  lemma {:induction false} GraftText(op: Op, l: Tree, r: Tree)
    ensures Text(Graft(op, l, r)) == Text(l) + [OpToken(op)] + Text(r)
  {
    if r.Binary? && Prio(r.op) == Prio(op) {
      GraftText(op, l, r.left);
      var a, b, c, p, q := Text(l), Text(r.left), Text(r.right), [OpToken(op)], [OpToken(r.op)];
      assert Text(r) == b + q + c;
      assert Text(Graft(op, l, r)) == Text(Graft(op, l, r.left)) + q + c;
      hide Text, Graft;
      assert a + p + b + q + c == a + p + (b + q + c);
    }
  }

  lemma {:induction false} StripShaped(e: Tree)
    requires Shaped(e)
    ensures Shaped(StripParens(e))
  {
    if e.Paren? { StripShaped(e.inner); }
  }

  lemma {:induction false} PeelShaped(op: Op, l: Tree, r: Tree, simplify: bool)
    requires Shaped(Binary(op, l, r))
    ensures Shaped(PeelLeft(op, l, simplify)) && Top(PeelLeft(op, l, simplify)) <= Prio(op)
    ensures Shaped(PeelRight(op, r, simplify)) && Top(PeelRight(op, r, simplify)) <= Prio(op)
    ensures Top(PeelRight(op, r, simplify)) == Prio(op) ==> FullyAssoc(op)
  {
    StripShaped(l);
    StripShaped(r);
  }

  /** The reread tree is a tree of the grammar, and its tokens are those that are printed. */
  lemma {:induction false} RereadPrints(e: Tree, simplify: bool)
    requires Shaped(e)
    ensures Shaped(Reread(e, simplify)) && Top(Reread(e, simplify)) == Top(e)
    ensures Text(Reread(e, simplify)) == Nested(e, simplify)
  {
    match e
    case Name(_) =>
    case Constant(_) =>
    case Paren(x) => RereadPrints(x, simplify);
    case Binary(op, l, r) =>
      var left, right := PeelLeft(op, l, simplify), PeelRight(op, r, simplify);
      PeelShaped(op, l, r, simplify);
      RereadPrints(left, simplify);
      RereadPrints(right, simplify);
      GraftShaped(op, Reread(left, simplify), Reread(right, simplify));
      GraftText(op, Reread(left, simplify), Reread(right, simplify));
  }

  /** Reading what is printed gives the reread tree. */
  lemma {:induction false} ReadDoc(e: Tree, simplify: bool)
    requires Shaped(e)
    ensures Read(Doc(e, simplify)) == Some(Reread(e, simplify))
  {
    hide Read, Doc, Nested, Reread, Text;
    DocIsNested(e, simplify);
    RereadPrints(e, simplify);
    ReadText(Reread(e, simplify));
  }

  /** Without simplification the tree itself is read again. */
  lemma {:induction false} UnsimplifiedIsExact(e: Tree)
    requires Shaped(e)
    ensures Reread(e, false) == e
  {
    match e
    case Name(_) =>
    case Constant(_) =>
    case Paren(x) => UnsimplifiedIsExact(x);
    case Binary(_, l, r) =>
      UnsimplifiedIsExact(l);
      UnsimplifiedIsExact(r);
  }

  // ---------------------------------------------------------------------------
  // Values
  // ---------------------------------------------------------------------------

  /** What the operators and the leaves mean. */
  datatype Meaning<!V> = Meaning(apply: (Op, V, V) -> V, name: nat -> V, constant: nat -> V)

  function Value<V>(m: Meaning<V>, e: Tree): V {
    match e
    case Name(n) => m.name(n)
    case Constant(n) => m.constant(n)
    case Paren(x) => Value(m, x)
    case Binary(op, l, r) => m.apply(op, Value(m, l), Value(m, r))
  }

  /** Only these operators occur. */
  predicate Over(ops: set<Op>, e: Tree) {
    match e
    case Name(_) => true
    case Constant(_) => true
    case Paren(x) => Over(ops, x)
    case Binary(op, l, r) => op in ops && Over(ops, l) && Over(ops, r)
  }

  /** a op (b op2 c) is (a op b) op2 c, for every op called fully associative and every op2 of its priority. */
  ghost predicate Reassociates<V(!new)>(apply: (Op, V, V) -> V, ops: set<Op>) {
    forall op, op2, a, b, c | op in ops && op2 in ops && FullyAssoc(op) && Prio(op) == Prio(op2) ::
      apply(op, a, apply(op2, b, c)) == apply(op2, apply(op, a, b), c)
  }

  lemma {:induction false} GraftValue<V(!new)>(m: Meaning<V>, ops: set<Op>, op: Op, l: Tree, r: Tree)
    requires Reassociates(m.apply, ops) && op in ops && Over(ops, l) && Over(ops, r)
    requires Top(r) == Prio(op) ==> FullyAssoc(op)
    ensures Over(ops, Graft(op, l, r))
    ensures Value(m, Graft(op, l, r)) == m.apply(op, Value(m, l), Value(m, r))
  {
    if r.Binary? && Prio(r.op) == Prio(op) {
      GraftValue(m, ops, op, l, r.left);
    }
  }

  lemma {:induction false} StripValue<V>(m: Meaning<V>, ops: set<Op>, e: Tree)
    requires Over(ops, e)
    ensures Over(ops, StripParens(e)) && Value(m, StripParens(e)) == Value(m, e)
  {
    if e.Paren? { StripValue(m, ops, e.inner); }
  }

  lemma {:induction false} RereadValue<V(!new)>(m: Meaning<V>, ops: set<Op>, e: Tree)
    requires Shaped(e) && Over(ops, e) && Reassociates(m.apply, ops)
    ensures Over(ops, Reread(e, true)) && Value(m, Reread(e, true)) == Value(m, e)
  {
    hide Reassociates;
    match e
    case Name(_) =>
    case Constant(_) =>
    case Paren(x) => RereadValue(m, ops, x);
    case Binary(op, l, r) =>
      var left, right := PeelLeft(op, l, true), PeelRight(op, r, true);
      PeelShaped(op, l, r, true);
      StripValue(m, ops, l);
      StripValue(m, ops, r);
      RereadValue(m, ops, left);
      RereadValue(m, ops, right);
      RereadPrints(right, true);
      GraftValue(m, ops, op, Reread(left, true), Reread(right, true));
  }

  /** a op (b op2 c), with its parentheses. */
  function Minimal(op: Op, op2: Op): Tree { Binary(op, Name(0), Paren(Binary(op2, Name(1), Name(2)))) }

  lemma {:induction false} MinimalOver(ops: set<Op>, op: Op, op2: Op)
    requires op in ops && op2 in ops
    ensures Over(ops, Minimal(op, op2))
  {
    assert Over(ops, Binary(op2, Name(1), Name(2)));
  }

  lemma {:induction false} MinimalReread(op: Op, op2: Op)
    requires FullyAssoc(op) && Prio(op) == Prio(op2)
    ensures Shaped(Minimal(op, op2))
    ensures Reread(Minimal(op, op2), true) == Binary(op2, Binary(op, Name(0), Name(1)), Name(2))
  {
    var inner := Binary(op2, Name(1), Name(2));
    assert PeelRight(op, Paren(inner), true) == inner;
    assert Reread(inner, true) == inner;
  }

  /** Every expression over some operators keeps its value when it is printed and read again. */
  ghost predicate PrintingIsSound<V(!new)>(apply: (Op, V, V) -> V, ops: set<Op>) {
    forall e, m: Meaning<V> | Shaped(e) && Over(ops, e) && m.apply == apply ::
      Read(Doc(e, true)).Some? && Value(m, Read(Doc(e, true)).value) == Value(m, e)
  }

  /** Printing keeps every value exactly if the operators reassociate. */
  lemma {:induction false} SoundIffReassociates<V(!new)>(apply: (Op, V, V) -> V, ops: set<Op>)
    ensures PrintingIsSound(apply, ops) <==> Reassociates(apply, ops)
  {
    hide Doc, Read, Shaped, Over, Value, Reread;
    if Reassociates(apply, ops) {
      forall e, m: Meaning<V> | Shaped(e) && Over(ops, e) && m.apply == apply
        ensures Read(Doc(e, true)).Some? && Value(m, Read(Doc(e, true)).value) == Value(m, e)
      {
        ReadDoc(e, true);
        RereadValue(m, ops, e);
      }
    }
    if PrintingIsSound(apply, ops) {
      forall op, op2, a, b, c | op in ops && op2 in ops && FullyAssoc(op) && Prio(op) == Prio(op2)
        ensures apply(op, a, apply(op2, b, c)) == apply(op2, apply(op, a, b), c)
      {
        MinimalForces(apply, ops, op, op2, a, b, c);
      }
    }
  }

  lemma {:induction false} MinimalForces<V(!new)>(apply: (Op, V, V) -> V, ops: set<Op>, op: Op, op2: Op, a: V, b: V, c: V)
    requires PrintingIsSound(apply, ops) && op in ops && op2 in ops && FullyAssoc(op) && Prio(op) == Prio(op2)
    ensures apply(op, a, apply(op2, b, c)) == apply(op2, apply(op, a, b), c)
  {
    var e := Minimal(op, op2);
    var m := Meaning(apply, n => if n == 0 then a else if n == 1 then b else c, n => a);
    hide Doc, Read, Reread, Shaped, Over, Value;
    MinimalReread(op, op2);
    ReadDoc(e, true);
    MinimalOver(ops, op, op2);
    assert Value(m, Read(Doc(e, true)).value) == Value(m, e);
    MinimalValues(m, op, op2);
  }

  lemma {:induction false} MinimalValues<V>(m: Meaning<V>, op: Op, op2: Op)
    ensures Value(m, Minimal(op, op2)) == m.apply(op, m.name(0), m.apply(op2, m.name(1), m.name(2)))
    ensures Value(m, Binary(op2, Binary(op, Name(0), Name(1)), Name(2)))
         == m.apply(op2, m.apply(op, m.name(0), m.name(1)), m.name(2))
  {
    var inner := Binary(op2, Name(1), Name(2));
    assert Value(m, Paren(inner)) == Value(m, inner) == m.apply(op2, m.name(1), m.name(2));
    assert Value(m, Binary(op, Name(0), Name(1))) == m.apply(op, m.name(0), m.name(1));
  }

  // ---------------------------------------------------------------------------
  // Integers
  // ---------------------------------------------------------------------------

  /** Unbounded integers; a division by zero is 0 here. */
  function IntApply(op: Op, a: int, b: int): int {
    match op
    case Plus => a + b
    case Minus => a - b
    case Mult => a * b
    case FloorDiv => if b == 0 then 0 else a / b
    case Mod => if b == 0 then 0 else a % b
    case _ => 0
  }

  const RING: set<Op> := {Plus, Minus, Mult}

  lemma {:induction false} RingLaw(op: Op, op2: Op, a: int, b: int, c: int)
    requires (op == Plus && (op2 == Plus || op2 == Minus)) || (op == Mult && op2 == Mult)
    ensures IntApply(op, a, IntApply(op2, b, c)) == IntApply(op2, IntApply(op, a, b), c)
  {
    if op == Mult { assert a * (b * c) == (a * b) * c; }
  }

  lemma {:induction false} RingReassociates()
    ensures Reassociates(IntApply, RING)
  {
    hide IntApply;
    forall op, op2, a, b, c | op in RING && op2 in RING && FullyAssoc(op) && Prio(op) == Prio(op2)
      ensures IntApply(op, a, IntApply(op2, b, c)) == IntApply(op2, IntApply(op, a, b), c)
    {
      RingLaw(op, op2, a, b, c);
    }
  }

  /** +, - and * can be printed without harm to unbounded integers. */
  lemma {:induction false} RingIsSound()
    ensures PrintingIsSound(IntApply, RING)
  {
    hide PrintingIsSound, IntApply;
    RingReassociates();
    SoundIffReassociates(IntApply, RING);
  }

  /** Below a *, an integer division or a remainder loses the parentheses it needs. */
  lemma {:induction false} DivisionIsNotSound(op: Op)
    requires op == FloorDiv || op == Mod
    ensures !PrintingIsSound(IntApply, {Mult, op})
  {
    hide PrintingIsSound;
    SoundIffReassociates(IntApply, {Mult, op});
    assert IntApply(Mult, 2, IntApply(op, 3, 2)) != IntApply(op, IntApply(Mult, 2, 3), 2);
  }

  // ---------------------------------------------------------------------------
  // 64-bit integers
  // ---------------------------------------------------------------------------

  /** Checked arithmetic, as the evaluator does it; other operators than +, - and * are not looked at. */
  function CheckedApply(op: Op, x: Result<Int64>, y: Result<Int64>): Result<Int64> {
    if x.Err? then x
    else if y.Err? then y
    else match op
      case Plus => Arithmetic.Add(x.value, y.value)
      case Minus => Arithmetic.Sub(x.value, y.value)
      case Mult => Arithmetic.Mul(x.value, y.value)
      case _ => Err(NotInteger)
  }

  lemma {:induction false} CheckedIsExact(op: Op, a: Int64, b: Int64)
    requires op in RING
    ensures CheckedApply(op, Ok(a), Ok(b)) == if FitsInt64(IntApply(op, a, b)) then Ok(IntApply(op, a, b)) else Err(IntOutOfRange)
  {
    hide Arithmetic.Add, Arithmetic.Sub, Arithmetic.Mul;
    Arithmetic.AddChecked(a, b);
    Arithmetic.SubChecked(a, b);
    Arithmetic.MulChecked(a, b);
  }

  function Checked(name: nat -> Int64, constant: nat -> Int64): Meaning<Result<Int64>> {
    Meaning(CheckedApply, n => Ok(name(n)), n => Ok(constant(n)))
  }

  function Unbounded(name: nat -> Int64, constant: nat -> Int64): Meaning<int> {
    Meaning(IntApply, n => name(n), n => constant(n))
  }

  /** No operation in the expression overflows. */
  predicate StaysInRange(e: Tree, name: nat -> Int64, constant: nat -> Int64) {
    match e
    case Name(_) => true
    case Constant(_) => true
    case Paren(x) => StaysInRange(x, name, constant)
    case Binary(_, l, r) =>
      StaysInRange(l, name, constant) && StaysInRange(r, name, constant) && FitsInt64(Value(Unbounded(name, constant), e))
  }

  lemma {:induction false} CheckedValue(e: Tree, name: nat -> Int64, constant: nat -> Int64)
    requires Over(RING, e)
    ensures StaysInRange(e, name, constant) ==> FitsInt64(Value(Unbounded(name, constant), e))
    ensures Value(Checked(name, constant), e)
         == if StaysInRange(e, name, constant) then Ok(Value(Unbounded(name, constant), e)) else Err(IntOutOfRange)
  {
    match e
    case Name(_) =>
    case Constant(_) =>
    case Paren(x) => CheckedValue(x, name, constant);
    case Binary(op, l, r) =>
      hide Arithmetic.Add, Arithmetic.Sub, Arithmetic.Mul, IntApply;
      CheckedValue(l, name, constant);
      CheckedValue(r, name, constant);
      if StaysInRange(l, name, constant) && StaysInRange(r, name, constant) {
        CheckedIsExact(op, Value(Unbounded(name, constant), l), Value(Unbounded(name, constant), r));
      }
  }

  /**
   A sum, difference or product of 64-bit integers keeps its value, or its error, exactly if
   regrouping neither causes nor avoids an overflow; it never gets another value.
   */
  lemma {:induction false} CheckedKeepsExactly(e: Tree, name: nat -> Int64, constant: nat -> Int64)
    requires Shaped(e) && Over(RING, e)
    ensures var r := Read(Doc(e, true)); var m := Checked(name, constant);
            && r.Some?
            && (Value(m, r.value) == Value(m, e) <==> (StaysInRange(r.value, name, constant) <==> StaysInRange(e, name, constant)))
            && (Value(m, r.value).Ok? && Value(m, e).Ok? ==> Value(m, r.value) == Value(m, e))
  {
    hide Doc, Read, Shaped, Over, Value, Reread, StaysInRange, Reassociates;
    ReadDoc(e, true);
    RingReassociates();
    RereadValue(Unbounded(name, constant), RING, e);
    CheckedValue(e, name, constant);
    CheckedValue(Reread(e, true), name, constant);
  }

  /** Among these operators, only - can be printed without harm to 64-bit integers. */
  lemma {:induction false} CheckedIsSoundExactly(ops: set<Op>)
    requires ops <= RING
    ensures PrintingIsSound(CheckedApply, ops) <==> Plus !in ops && Mult !in ops
  {
    hide PrintingIsSound;
    SoundIffReassociates(CheckedApply, ops);
    RegroupingOverflows();
    if Plus !in ops && Mult !in ops {
      assert forall op <- ops :: !FullyAssoc(op);
    }
  }

  /** The greatest integer plus (1 + -1), and times (2 * 0): regrouped to the left, they overflow. */
  lemma {:induction false} RegroupingOverflows()
    ensures var max, a, b := Ok(MAX_INT64), Ok(1), Ok(-1);
            CheckedApply(Plus, max, CheckedApply(Plus, a, b)) != CheckedApply(Plus, CheckedApply(Plus, max, a), b)
    ensures var max, a, b := Ok(MAX_INT64), Ok(2), Ok(0);
            CheckedApply(Mult, max, CheckedApply(Mult, a, b)) != CheckedApply(Mult, CheckedApply(Mult, max, a), b)
  {
    hide CheckedApply;
    CheckedIsExact(Plus, 1, -1);
    CheckedIsExact(Plus, MAX_INT64, 0);
    CheckedIsExact(Plus, MAX_INT64, 1);
    CheckedIsExact(Mult, 2, 0);
    CheckedIsExact(Mult, MAX_INT64, 0);
    CheckedIsExact(Mult, MAX_INT64, 2);
    ErrorStays();
  }

  lemma {:induction false} ErrorStays()
    ensures forall op, e, y :: CheckedApply(op, Err(e), y) == Err(e)
  {
  }
}
