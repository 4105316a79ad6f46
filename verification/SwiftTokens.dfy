/**
 Bracketed token lists: splitting at top-level commas, and finding the end of a call,
 against trees of groups.
 */
module SwiftTokens {
  import opened Bytes

  /** An identifier or a single character, or a string literal. */
  datatype Token = Plain(text: string) | Literal(text: string)

  type Tokens = seq<Token>

  const COMMA := Plain(",")
  const OPEN := Plain("(")
  const CLOSE := Plain(")")

  /** The names that a plain object answers to without having them. */
  const PROTOTYPE_NAMES: set<string> := {
    "constructor", "toString", "toLocaleString", "valueOf", "hasOwnProperty", "isPrototypeOf", "propertyIsEnumerable",
    "__proto__", "__defineGetter__", "__defineSetter__", "__lookupGetter__", "__lookupSetter__"}

  predicate IsOpen(t: Token) { t == OPEN || t == Plain("[") || t == Plain("{") }

  predicate IsClose(t: Token) { t == CLOSE || t == Plain("]") || t == Plain("}") }

  function Closing(t: Token): (c: Token)
    ensures IsOpen(t) ==> IsClose(c)
  {
    if t == OPEN then CLOSE else if t == Plain("[") then Plain("]") else Plain("}")
  }

  predicate IsPrototypeName(t: Token) { t.Plain? && t.text in PROTOTYPE_NAMES }

  /** What is pushed for a prototype name: it closes with nothing. */
  const NEVER := Literal("")

  // ---- Splitting -------------------------------------------------------------------------

  /** From here on: the row so far, the brackets that are open, and the rows so far. */
  function Scan(rest: Tokens, row: Tokens, stack: Tokens, rows: seq<Tokens>): Option<seq<Tokens>> {
    if rest == [] then
      if stack != [] then None else Some(if row == [] then rows else rows + [row])
    else
      var t := rest[0];
      if IsOpen(t) then Scan(rest[1..], row + [t], stack + [Closing(t)], rows)
      else if IsPrototypeName(t) then Scan(rest[1..], row + [t], stack + [NEVER], rows)
      else if IsClose(t) then
        if stack == [] || stack[|stack| - 1] != t then None else Scan(rest[1..], row + [t], stack[..|stack| - 1], rows)
      else if t == COMMA && stack == [] then Scan(rest[1..], [], [], rows + [row])
      else Scan(rest[1..], row + [t], stack, rows)
  }

  /** The rows between top-level commas; nothing when it throws. */
  function Rows(input: Tokens): Option<seq<Tokens>> { Scan(input, [], [], []) }

  method SplitArguments(input: Tokens) returns (result: Option<seq<Tokens>>)
    ensures result == Rows(input)
  {
    var stack: Tokens, rows: seq<Tokens>, start := [], [], 0;
    for index := 0 to |input|
      invariant start <= index
      invariant Scan(input[index..], input[start..index], stack, rows) == Rows(input)
    {
      var token := input[index];
      assert input[index..][1..] == input[index + 1..];
      assert input[start..index] + [token] == input[start..index + 1];
      if IsOpen(token) {
        stack := stack + [Closing(token)];
      } else if IsPrototypeName(token) {
        stack := stack + [NEVER];
      } else if IsClose(token) {
        if stack == [] || stack[|stack| - 1] != token { return None; }
        stack := stack[..|stack| - 1];
      } else if token == COMMA && stack == [] {
        rows := rows + [input[start..index]];
        start := index + 1;
        assert input[start..index + 1] == [];
      }
    }
    assert input[|input|..] == [] && input[start..|input|] == input[start..];
    if stack != [] { return None; }
    if start < |input| { rows := rows + [input[start..]]; }
    return Some(rows);
  }

  // ---- Trees ---------------------------------------------------------------------------------

  datatype Tree = Leaf(token: Token) | Group(open: Token, inside: seq<Tree>)

  predicate IsLeaf(t: Token) { !IsOpen(t) && !IsClose(t) && !IsPrototypeName(t) }

  predicate Good(t: Tree)
    decreases t
  {
    match t
    case Leaf(token) => IsLeaf(token)
    case Group(open, inside) => IsOpen(open) && forall k | 0 <= k < |inside| :: Good(inside[k])
  }

  predicate AllGood(ts: seq<Tree>) { forall k | 0 <= k < |ts| :: Good(ts[k]) }

  function Written(t: Tree): Tokens
    decreases t, 0
  {
    match t
    case Leaf(token) => [token]
    case Group(open, inside) => [open] + AllWritten(inside) + [Closing(open)]
  }

  function AllWritten(ts: seq<Tree>): Tokens
    decreases ts, 1
  {
    if ts == [] then [] else Written(ts[0]) + AllWritten(ts[1..])
  }

  /** The rows of a list of trees, with what stands before it in the first one. */
  function TreeRows(ts: seq<Tree>, row: Tokens): seq<Tokens> {
    if ts == [] then if row == [] then [] else [row]
    else if ts[0] == Leaf(COMMA) then [row] + TreeRows(ts[1..], [])
    else TreeRows(ts[1..], row + Written(ts[0]))
  }

  lemma {:induction false} WrittenSum(a: seq<Tree>, b: seq<Tree>)
    ensures AllWritten(a + b) == AllWritten(a) + AllWritten(b)
    decreases |a|
  {
    if a == [] {
      assert a + b == b;
    } else {
      assert (a + b)[1..] == a[1..] + b;
      WrittenSum(a[1..], b);
    }
  }

  // ---- Balanced lists are split ----------------------------------------------------------------

  /** Inside brackets a tree goes to the row as it is. */
  lemma {:induction false} ScanTree(t: Tree, rest: Tokens, row: Tokens, stack: Tokens, rows: seq<Tokens>)
    requires Good(t) && (stack == [] ==> t != Leaf(COMMA))
    ensures Scan(Written(t) + rest, row, stack, rows) == Scan(rest, row + Written(t), stack, rows)
    decreases t, 0
  {
    match t
    case Leaf(token) =>
      assert ([token] + rest)[1..] == rest;
    case Group(open, inside) =>
      var inner, close := AllWritten(inside) + ([Closing(open)] + rest), [Closing(open)];
      assert Written(t) + rest == [open] + inner;
      assert ([open] + inner)[1..] == inner;
      ScanTrees(inside, close + rest, row + [open], stack + [Closing(open)], rows);
      ClosingIsNoOther(open);
      assert (close + rest)[1..] == rest;
      assert (stack + [Closing(open)])[..|stack|] == stack;
      assert row + [open] + AllWritten(inside) + close == row + Written(t);
  }

  lemma ClosingIsNoOther(open: Token)
    requires IsOpen(open)
    ensures !IsOpen(Closing(open)) && !IsPrototypeName(Closing(open)) && IsClose(Closing(open))
  {
    var c := Closing(open);
    assert |c.text| == 1;
    assert forall n | n in PROTOTYPE_NAMES :: |n| > 1;
  }

  lemma ScanTrees(ts: seq<Tree>, rest: Tokens, row: Tokens, stack: Tokens, rows: seq<Tokens>)
    requires AllGood(ts) && stack != []
    ensures Scan(AllWritten(ts) + rest, row, stack, rows) == Scan(rest, row + AllWritten(ts), stack, rows)
    decreases ts, 1
  {
    if ts == [] {
      assert AllWritten(ts) + rest == rest && row + AllWritten(ts) == row;
    } else {
      var more := AllWritten(ts[1..]);
      assert AllWritten(ts) + rest == Written(ts[0]) + (more + rest);
      ScanTree(ts[0], more + rest, row, stack, rows);
      ScanTrees(ts[1..], rest, row + Written(ts[0]), stack, rows);
      assert row + Written(ts[0]) + more == row + AllWritten(ts);
    }
  }

  lemma {:induction false} ScanTopTrees(ts: seq<Tree>, row: Tokens, rows: seq<Tokens>)
    requires AllGood(ts)
    ensures Scan(AllWritten(ts), row, [], rows) == Some(rows + TreeRows(ts, row))
    decreases |ts|
  {
    if ts == [] {
      assert rows + [] == rows;
    } else {
      assert Good(ts[0]);
      var more := AllWritten(ts[1..]);
      if ts[0] == Leaf(COMMA) {
        assert AllWritten(ts) == [COMMA] + more;
        ScanTopTrees(ts[1..], [], rows + [row]);
        assert rows + [row] + TreeRows(ts[1..], []) == rows + TreeRows(ts, row);
      } else {
        ScanTree(ts[0], more, row, [], rows);
        ScanTopTrees(ts[1..], row + Written(ts[0]), rows);
      }
    }
  }

  /** A balanced list without prototype names is split at its top-level commas. */
  lemma BalancedIsSplit(ts: seq<Tree>)
    requires AllGood(ts)
    ensures Rows(AllWritten(ts)) == Some(TreeRows(ts, []))
  {
    ScanTopTrees(ts, [], []);
    assert [] + TreeRows(ts, []) == TreeRows(ts, []);
  }

  // ---- What is split is balanced -----------------------------------------------------------------

  /** A group that is still open: what came before it, and its bracket. */
  datatype Frame = Frame(before: seq<Tree>, open: Token)

  /** The tokens that the open groups and the trees behind them stand for. */
  function Pending(frames: seq<Frame>, current: seq<Tree>): Tokens {
    if frames == [] then AllWritten(current)
    else
      var last := frames[|frames| - 1];
      Pending(frames[..|frames| - 1], last.before) + [last.open] + AllWritten(current)
  }

  ghost predicate FramesMatch(frames: seq<Frame>, stack: Tokens) {
    && |frames| == |stack|
    && forall k | 0 <= k < |frames| :: AllGood(frames[k].before) && IsOpen(frames[k].open) && stack[k] == Closing(frames[k].open)
  }

  lemma {:induction false} NeverCloses(rest: Tokens, row: Tokens, stack: Tokens, rows: seq<Tokens>)
    requires NEVER in stack
    ensures Scan(rest, row, stack, rows).None?
    decreases |rest|
  {
    if rest != [] {
      var t := rest[0];
      if IsOpen(t) {
        NeverCloses(rest[1..], row + [t], stack + [Closing(t)], rows);
      } else if IsPrototypeName(t) {
        NeverCloses(rest[1..], row + [t], stack + [NEVER], rows);
      } else if IsClose(t) {
        if stack[|stack| - 1] == t {
          assert stack == stack[..|stack| - 1] + [t];
          NeverCloses(rest[1..], row + [t], stack[..|stack| - 1], rows);
        }
      } else {
        NeverCloses(rest[1..], row + [t], stack, rows);
      }
    }
  }

  lemma {:induction false} ScannedIsBalanced(rest: Tokens, row: Tokens, stack: Tokens, rows: seq<Tokens>, frames: seq<Frame>,
                                             current: seq<Tree>) returns (ts: seq<Tree>)
    requires Scan(rest, row, stack, rows).Some? && FramesMatch(frames, stack) && AllGood(current)
    ensures AllGood(ts) && AllWritten(ts) == Pending(frames, current) + rest
    decreases |rest|
  {
    hide IsPrototypeName, IsOpen, IsClose, Pending, AllWritten, Closing, Good;
    if rest == [] {
      ts := current;
      NothingIsOpen(frames, current);
      assert Pending(frames, current) + rest == AllWritten(current);
    } else {
      var t, more := rest[0], rest[1..];
      assert rest == [t] + more;
      if IsOpen(t) {
        OpenIsPending(frames, current, t);
        ts := ScannedIsBalanced(more, row + [t], stack + [Closing(t)], rows, frames + [Frame(current, t)], []);
      } else if IsPrototypeName(t) {
        NeverCloses(more, row + [t], stack + [NEVER], rows);
      } else if IsClose(t) {
        var last := frames[|frames| - 1];
        GroupIsPending(frames, current);
        ts := ScannedIsBalanced(more, row + [t], stack[..|stack| - 1], rows, frames[..|frames| - 1],
                                last.before + [Group(last.open, current)]);
      } else {
        LeafIsPending(frames, current, t);
        if t == COMMA && stack == [] {
          ts := ScannedIsBalanced(more, [], [], rows + [row], frames, current + [Leaf(t)]);
        } else {
          ts := ScannedIsBalanced(more, row + [t], stack, rows, frames, current + [Leaf(t)]);
        }
      }
      assert Pending(frames, current) + [t] + more == Pending(frames, current) + rest;
    }
  }

  lemma NothingIsOpen(frames: seq<Frame>, current: seq<Tree>)
    ensures frames == [] ==> Pending(frames, current) == AllWritten(current)
  {
  }

  lemma OpenIsPending(frames: seq<Frame>, current: seq<Tree>, t: Token)
    ensures Pending(frames + [Frame(current, t)], []) == Pending(frames, current) + [t] && AllGood([])
  {
    assert (frames + [Frame(current, t)])[..|frames|] == frames;
  }

  lemma LeafIsPending(frames: seq<Frame>, current: seq<Tree>, t: Token)
    requires AllGood(current) && IsLeaf(t)
    ensures Pending(frames, current + [Leaf(t)]) == Pending(frames, current) + [t] && AllGood(current + [Leaf(t)])
  {
    WrittenSum(current, [Leaf(t)]);
    assert AllWritten([Leaf(t)]) == [t];
  }

  /** The innermost group is closed. */
  lemma GroupIsPending(frames: seq<Frame>, current: seq<Tree>)
    requires frames != [] && AllGood(current)
    requires AllGood(frames[|frames| - 1].before) && IsOpen(frames[|frames| - 1].open)
    ensures var last := frames[|frames| - 1];
            var closed := last.before + [Group(last.open, current)];
            && Pending(frames[..|frames| - 1], closed) == Pending(frames, current) + [Closing(last.open)]
            && AllGood(closed)
  {
    var last := frames[|frames| - 1];
    var outer, group := frames[..|frames| - 1], Group(last.open, current);
    WrittenSum(last.before, [group]);
    assert AllWritten([group]) == [last.open] + AllWritten(current) + [Closing(last.open)];
    EmptyBehind(outer, last.before, group);
  }

  lemma EmptyBehind(outer: seq<Frame>, before: seq<Tree>, group: Tree)
    requires AllWritten(before + [group]) == AllWritten(before) + AllWritten([group])
    ensures Pending(outer, before + [group]) == Pending(outer, before) + AllWritten([group])
  {
    hide AllWritten;
  }

  /** A list is split exactly when it is balanced over all three kinds of brackets and has no prototype name. */
  lemma SplitsExactlyBalanced(input: Tokens)
    ensures Rows(input).Some? <==> exists ts :: AllGood(ts) && AllWritten(ts) == input
  {
    if Rows(input).Some? {
      var ts := ScannedIsBalanced(input, [], [], [], [], []);
      assert Pending([], []) + input == input;
    }
    forall ts | AllGood(ts) && AllWritten(ts) == input ensures Rows(input).Some? { BalancedIsSplit(ts); }
  }

  // ---- Rows ------------------------------------------------------------------------------------------

  function WithCommas(rows: seq<Tokens>): Tokens {
    if rows == [] then [] else if |rows| == 1 then rows[0] else rows[0] + [COMMA] + WithCommas(rows[1..])
  }

  ghost predicate IsRow(row: Tokens) { exists ts :: AllGood(ts) && Leaf(COMMA) !in ts && AllWritten(ts) == row }

  /** Rejoined, the rows are these tokens, but for a comma at their end. */
  ghost predicate Rejoins(rows: seq<Tokens>, tokens: Tokens) {
    (WithCommas(rows) == tokens || WithCommas(rows) + [COMMA] == tokens) && (rows == [] <==> tokens == [])
  }

  lemma OneMoreRow(rows: seq<Tokens>, tokens: Tokens, row: Tokens)
    requires Rejoins(rows, tokens)
    ensures Rejoins([row] + rows, row + [COMMA] + tokens)
  {
    if rows == [] {
      assert row + [COMMA] + tokens == row + [COMMA];
    } else {
      assert ([row] + rows)[1..] == rows;
      assert row + [COMMA] + WithCommas(rows) + [COMMA] == row + [COMMA] + (WithCommas(rows) + [COMMA]);
    }
  }

  lemma {:induction false} RowsRejoin(ts: seq<Tree>, row: Tokens)
    ensures Rejoins(TreeRows(ts, row), row + AllWritten(ts))
    decreases |ts|
  {
    hide Rejoins, Written, WithCommas;
    if ts == [] {
      NoTrees(row);
    } else {
      var more := AllWritten(ts[1..]);
      assert AllWritten(ts) == Written(ts[0]) + more;
      if ts[0] == Leaf(COMMA) {
        RowsRejoin(ts[1..], []);
        assert [] + more == more;
        OneMoreRow(TreeRows(ts[1..], []), more, row);
        CommaIsWritten();
        assert row + ([COMMA] + more) == row + [COMMA] + more;
      } else {
        RowsRejoin(ts[1..], row + Written(ts[0]));
        assert row + Written(ts[0]) + more == row + (Written(ts[0]) + more);
      }
    }
  }

  lemma CommaIsWritten()
    ensures Written(Leaf(COMMA)) == [COMMA]
  {
  }

  lemma NoTrees(row: Tokens)
    ensures Rejoins(TreeRows([], row), row + AllWritten([]))
  {
    assert row + [] == row;
  }

  lemma {:induction false} RowsAreRows(ts: seq<Tree>, before: seq<Tree>)
    requires AllGood(ts) && AllGood(before) && Leaf(COMMA) !in before
    ensures forall k | 0 <= k < |TreeRows(ts, AllWritten(before))| :: IsRow(TreeRows(ts, AllWritten(before))[k])
    decreases |ts|
  {
    if ts == [] {
    } else if ts[0] == Leaf(COMMA) {
      RowsAreRows(ts[1..], []);
      assert IsRow(AllWritten(before));
    } else {
      assert Good(ts[0]);
      WrittenSum(before, [ts[0]]);
      assert AllWritten([ts[0]]) == Written(ts[0]);
      RowsAreRows(ts[1..], before + [ts[0]]);
    }
  }

  /** The rows are balanced and have no top-level comma; with commas between them they make the input, but for a last comma. */
  lemma SplitIsExact(input: Tokens)
    requires Rows(input).Some?
    ensures forall k | 0 <= k < |Rows(input).value| :: IsRow(Rows(input).value[k])
    ensures var joined := WithCommas(Rows(input).value); input == joined || input == joined + [COMMA]
  {
    SplitsExactlyBalanced(input);
    var ts :| AllGood(ts) && AllWritten(ts) == input;
    BalancedIsSplit(ts);
    RowsRejoin(ts, []);
    RowsAreRows(ts, []);
    assert [] + AllWritten(ts) == input;
  }

  /** An argument list with the identifier `constructor` is not split, however balanced it is. */
  lemma ConstructorIsNotSplit(before: Tokens, after: Tokens)
    ensures Rows(before + [Plain("constructor")] + after).None?
  {
    var input := before + [Plain("constructor")] + after;
    assert IsPrototypeName(input[|before|]);
    SplitHasNoPrototypeName(input);
  }

  lemma SplitHasNoPrototypeName(input: Tokens)
    ensures Rows(input).Some? ==> forall k | 0 <= k < |input| :: !IsPrototypeName(input[k])
  {
    if Rows(input).Some? {
      SplitsExactlyBalanced(input);
      var ts :| AllGood(ts) && AllWritten(ts) == input;
      GoodHasNoPrototypeName(ts);
    }
  }

  lemma {:induction false} GoodHasNoPrototypeName(ts: seq<Tree>)
    requires AllGood(ts)
    ensures forall k | 0 <= k < |AllWritten(ts)| :: !IsPrototypeName(AllWritten(ts)[k])
    decreases ts, 1
  {
    if ts != [] {
      TreeHasNoPrototypeName(ts[0]);
      GoodHasNoPrototypeName(ts[1..]);
    }
  }

  lemma TreeHasNoPrototypeName(t: Tree)
    requires Good(t)
    ensures forall k | 0 <= k < |Written(t)| :: !IsPrototypeName(Written(t)[k])
    decreases t, 0
  {
    match t
    case Leaf(token) =>
    case Group(open, inside) =>
      assert AllGood(inside);
      GoodHasNoPrototypeName(inside);
      BracketsAreNoNames(open);
  }

  lemma BracketsAreNoNames(open: Token)
    requires IsOpen(open)
    ensures !IsPrototypeName(open) && !IsPrototypeName(Closing(open))
  {
    ClosingIsNoOther(open);
    assert |open.text| == 1;
  }
}
