/**
 * The propositional formula evaluator of mat_logic_lab_1_practice.py: the
 * formula is turned into postfix by the shunting-yard loop of
 * `infix_to_postfix`, evaluated with a stack by `calculate_postfix`, and
 * `truth_table` runs the evaluation over every assignment of its variables.
 * Tokens are single characters; a Python exception (a pop from an empty list,
 * `int` of a non-digit) is the `Error` case of `Result`.
 */
module TruthTable {
  import opened Common

  datatype Result<T> = Ok(value: T) | Error(reason: string)

  predicate IsLetter(c: char)
  {
    'A' <= c <= 'Z' || 'a' <= c <= 'z'
  }

  predicate IsDigit(c: char)
  {
    '0' <= c <= '9'
  }

  /** `str.isalnum` on one character, for the ASCII range. */
  predicate IsAlnum(c: char)
  {
    IsLetter(c) || IsDigit(c)
  }

  // ---------------------------------------------------------------------
  // `formating_string`

  /**
   * The substitution of `([A-Za-z])([A-Za-z])` by `\1&\2`: pairs of letters
   * are matched from the left and do not overlap, so a third letter in a row
   * stays joined to the second.
   */
  function InsertAnds(s: string): string
  {
    if |s| >= 2 && IsLetter(s[0]) && IsLetter(s[1]) then [s[0], '&', s[1]] + InsertAnds(s[2..])
    else if s == [] then []
    else [s[0]] + InsertAnds(s[1..])
  }

  function Upper(s: string): string
  {
    seq(|s|, k requires 0 <= k < |s| => if 'a' <= s[k] <= 'z' then (s[k] as int - 32) as char else s[k])
  }

  function WithoutSpaces(s: string): string
  {
    if s == [] then [] else (if s[0] == ' ' then [] else [s[0]]) + WithoutSpaces(s[1..])
  }

  function Replace(s: string, a: char, b: char): string
  {
    seq(|s|, k requires 0 <= k < |s| => if s[k] == a then b else s[k])
  }

  /**
   * `formating_string`: an `&` between adjacent letters, upper case, no
   * spaces, and the signs `!` and `|` shown as `¬` and `v`.
   */
  function FormatString(s: string): (r: string)
    ensures forall k :: 0 <= k < |r| ==> r[k] != ' ' && r[k] != '!' && r[k] != '|'
    ensures forall k :: 0 <= k < |r| && 'a' <= r[k] <= 'z' ==> r[k] == 'v'
  {
    var spaced := WithoutSpaces(Upper(InsertAnds(s)));
    NoSpaces(Upper(InsertAnds(s)));
    Replace(Replace(spaced, '!', '¬'), '|', 'v')
  }

  lemma {:induction false} NoSpaces(s: string)
    ensures forall k :: 0 <= k < |WithoutSpaces(s)| ==> WithoutSpaces(s)[k] != ' '
    ensures forall k :: 0 <= k < |WithoutSpaces(s)| ==> WithoutSpaces(s)[k] in s
  {
    if s != [] {
      NoSpaces(s[1..]);
      var head := if s[0] == ' ' then [] else [s[0]];
      forall k | 0 <= k < |WithoutSpaces(s)|
        ensures WithoutSpaces(s)[k] != ' ' && WithoutSpaces(s)[k] in s
      {
        if k >= |head| {
          assert WithoutSpaces(s)[k] == WithoutSpaces(s[1..])[k - |head|];
        }
      }
    }
  }

  /**
   * On a run of letters the pairs are taken from the left without overlap:
   * every third character, starting at position 1, is the inserted `&`, and
   * a letter is added only for each complete pair.
   */
  lemma {:induction false} InsertAndsOnLetters(s: string)
    requires forall k :: 0 <= k < |s| ==> IsLetter(s[k])
    ensures |InsertAnds(s)| == |s| + |s| / 2
    ensures forall k :: 0 <= k < |InsertAnds(s)| ==> (InsertAnds(s)[k] == '&' <==> k % 3 == 1)
  {
    if |s| >= 2 {
      var t := s[2..];
      assert forall k :: 0 <= k < |t| ==> t[k] == s[k + 2];
      InsertAndsOnLetters(t);
      var rest := InsertAnds(t);
      var r := InsertAnds(s);
      assert IsLetter(s[0]) && IsLetter(s[1]);
      assert r == [s[0], '&', s[1]] + rest;
      assert (|s| - 2) / 2 == |s| / 2 - 1;
      forall k | 0 <= k < |r|
        ensures r[k] == '&' <==> k % 3 == 1
      {
        if k >= 3 {
          assert r[k] == rest[k - 3];
          assert (k - 3) % 3 == k % 3;
        }
      }
    } else if |s| == 1 {
      assert InsertAnds(s) == [s[0]];
    }
  }

  // ---------------------------------------------------------------------
  // `precedence`

  /** `precedence`: `|` binds weakest, then `&`, then `!`; every other character has 0. */
  function Precedence(op: char): (p: int)
    ensures 0 <= p <= 3
    ensures p == 0 <==> op != '|' && op != '&' && op != '!'
    ensures op == '|' ==> p == 1
    ensures op == '&' ==> p == 2
    ensures op == '!' ==> p == 3
  {
    if op == '|' then 1
    else if op == '&' then 2
    else if op == '!' then 3
    else 0
  }

  // ---------------------------------------------------------------------
  // `infix_to_postfix`

  /** The inner `while` before pushing an operator: pops while the top binds at least as tightly as p. */
  function PopWhile(stack: string, output: string, p: int): (r: (string, string))
    ensures |r.0| <= |stack|
    decreases |stack|
  {
    if stack != [] && Precedence(stack[|stack| - 1]) >= p then
      PopWhile(stack[..|stack| - 1], output + [stack[|stack| - 1]], p)
    else (stack, output)
  }

  /** The inner `while` of a closing parenthesis: pops down to the nearest `(`. */
  function PopToParen(stack: string, output: string): (r: (string, string))
    ensures |r.0| <= |stack|
    decreases |stack|
  {
    if stack != [] && stack[|stack| - 1] != '(' then
      PopToParen(stack[..|stack| - 1], output + [stack[|stack| - 1]])
    else (stack, output)
  }

  /**
   * The rest of `infix_to_postfix` on the characters `expr` still to read,
   * with the operator stack and the output built so far.
   */
  function Shunt(expr: string, stack: string, output: string): Result<string>
    decreases |expr|
  {
    if expr == [] then Ok(output + Reverse(stack))
    else if IsAlnum(expr[0]) then Shunt(expr[1..], stack, output + [expr[0]])
    else if expr[0] == '(' then Shunt(expr[1..], stack + ['('], output)
    else if expr[0] == ')' then
      var popped := PopToParen(stack, output);
      if popped.0 == [] then Error("pop from empty list")
      else Shunt(expr[1..], popped.0[..|popped.0| - 1], popped.1)
    else
      var popped := PopWhile(stack, output, Precedence(expr[0]));
      Shunt(expr[1..], popped.0 + [expr[0]], popped.1)
  }

  /** `infix_to_postfix`, with the loop over the characters and its two inner loops. */
  method InfixToPostfix(expression: string) returns (r: Result<string>)
    ensures r == Shunt(expression, [], [])
  {
    var stack: string := [];
    var output: string := [];
    for i := 0 to |expression|
      invariant Shunt(expression[i..], stack, output) == Shunt(expression, [], [])
    {
      var c := expression[i];
      assert expression[i..][0] == c && expression[i..][1..] == expression[i + 1..];
      if IsAlnum(c) {
        output := output + [c];
      } else if c == '(' {
        stack := stack + ['('];
      } else if c == ')' {
        ghost var popped := PopToParen(stack, output);
        while stack != [] && stack[|stack| - 1] != '('
          invariant PopToParen(stack, output) == popped
          decreases |stack|
        {
          output := output + [stack[|stack| - 1]];
          stack := stack[..|stack| - 1];
        }
        if stack == [] {
          return Error("pop from empty list");
        }
        stack := stack[..|stack| - 1];
      } else {
        ghost var popped := PopWhile(stack, output, Precedence(c));
        while stack != [] && Precedence(stack[|stack| - 1]) >= Precedence(c)
          invariant PopWhile(stack, output, Precedence(c)) == popped
          decreases |stack|
        {
          output := output + [stack[|stack| - 1]];
          stack := stack[..|stack| - 1];
        }
        stack := stack + [c];
      }
    }
    assert expression[|expression|..] == [];
    output := output + Reverse(stack);
    r := Ok(output);
  }

  // ---------------------------------------------------------------------
  // `calculate_postfix`

  /** An operand token: the value of a variable, or else `bool(int(token))`. */
  function Operand(token: char, env: map<char, bool>): Result<bool>
  {
    if token in env then Ok(env[token])
    else if IsDigit(token) then Ok(token != '0')
    else Error("invalid literal for int()")
  }

  /** The rest of `calculate_postfix` on the tokens `expr`, with the value stack built so far. */
  function EvalFrom(expr: string, stack: seq<bool>, env: map<char, bool>): Result<bool>
    decreases |expr|
  {
    if expr == [] then
      if stack == [] then Error("pop from empty list") else Ok(stack[|stack| - 1])
    else if expr[0] == '!' then
      if stack == [] then Error("pop from empty list")
      else EvalFrom(expr[1..], stack[..|stack| - 1] + [!stack[|stack| - 1]], env)
    else if expr[0] == '&' || expr[0] == '|' then
      if |stack| < 2 then Error("pop from empty list")
      else
        var a, b := stack[|stack| - 2], stack[|stack| - 1];
        EvalFrom(expr[1..], stack[..|stack| - 2] + [if expr[0] == '&' then a && b else a || b], env)
    else
      match Operand(expr[0], env)
      case Error(e) => Error(e)
      case Ok(v) => EvalFrom(expr[1..], stack + [v], env)
  }

  /** `calculate_postfix`: the loop over the tokens with a stack of values. */
  method CalculatePostfix(expression: string, variableValues: map<char, bool>) returns (r: Result<bool>)
    ensures r == EvalFrom(expression, [], variableValues)
  {
    var stack: seq<bool> := [];
    for i := 0 to |expression|
      invariant EvalFrom(expression[i..], stack, variableValues) == EvalFrom(expression, [], variableValues)
    {
      var token := expression[i];
      assert expression[i..][0] == token && expression[i..][1..] == expression[i + 1..];
      if token == '!' {
        if stack == [] {
          return Error("pop from empty list");
        }
        var operand := stack[|stack| - 1];
        stack := stack[..|stack| - 1] + [!operand];
      } else if token == '&' || token == '|' {
        if |stack| < 2 {
          return Error("pop from empty list");
        }
        var operand2 := stack[|stack| - 1];
        var operand1 := stack[|stack| - 2];
        stack := stack[..|stack| - 2] + [if token == '&' then operand1 && operand2 else operand1 || operand2];
      } else {
        var v := Operand(token, variableValues);
        if v.Error? {
          return Error(v.reason);
        }
        stack := stack + [v.value];
      }
    }
    assert expression[|expression|..] == [];
    if stack == [] {
      return Error("pop from empty list");
    }
    r := Ok(stack[|stack| - 1]);
  }

  // ---------------------------------------------------------------------
  // Formulas: the infix texts the two loops are written for

  /**
   * The parse of a formula, parentheses included. A well-formed tree is the
   * parse under `!` > `&` > `|`, both binary operators grouping to the left:
   * the right operand of `|` has no top-level `|`, that of `&` no top-level
   * `&` or `|`, and `!` applies to a variable, a digit or a parenthesis.
   */
  datatype Formula =
    | Atom(name: char)
    | Not(arg: Formula)
    | And(left: Formula, right: Formula)
    | Or(left: Formula, right: Formula)
    | Paren(inner: Formula)

  /** The precedence of the top-level operator; 4 for an atom or a parenthesis. */
  function Level(f: Formula): nat
  {
    match f
    case Or(_, _) => 1
    case And(_, _) => 2
    case Not(_) => 3
    case _ => 4
  }

  predicate WellFormed(f: Formula)
  {
    match f
    case Atom(c) => IsAlnum(c)
    case Not(x) => Level(x) == 4 && WellFormed(x)
    case And(l, r) => Level(l) >= 2 && Level(r) >= 3 && WellFormed(l) && WellFormed(r)
    case Or(l, r) => Level(r) >= 2 && WellFormed(l) && WellFormed(r)
    case Paren(x) => WellFormed(x)
  }

  /** The infix text, without spaces. */
  function Text(f: Formula): string
  {
    match f
    case Atom(c) => [c]
    case Not(x) => "!" + Text(x)
    case And(l, r) => Text(l) + "&" + Text(r)
    case Or(l, r) => Text(l) + "|" + Text(r)
    case Paren(x) => "(" + Text(x) + ")"
  }

  /** The postfix text: operands first, each operator after them. */
  function Postfix(f: Formula): string
  {
    match f
    case Atom(c) => [c]
    case Not(x) => Postfix(x) + "!"
    case And(l, r) => Postfix(l) + Postfix(r) + "&"
    case Or(l, r) => Postfix(l) + Postfix(r) + "|"
    case Paren(x) => Postfix(x)
  }

  /** Every atom is a variable of env or a digit. */
  predicate Defined(f: Formula, env: map<char, bool>)
  {
    match f
    case Atom(c) => c in env || IsDigit(c)
    case Not(x) => Defined(x, env)
    case And(l, r) => Defined(l, env) && Defined(r, env)
    case Or(l, r) => Defined(l, env) && Defined(r, env)
    case Paren(x) => Defined(x, env)
  }

  /** Boolean semantics; a digit atom is true unless it is 0. */
  function Sem(f: Formula, env: map<char, bool>): bool
    requires Defined(f, env)
  {
    match f
    case Atom(c) => if c in env then env[c] else c != '0'
    case Not(x) => !Sem(x, env)
    case And(l, r) => Sem(l, env) && Sem(r, env)
    case Or(l, r) => Sem(l, env) || Sem(r, env)
    case Paren(x) => Sem(x, env)
  }

  function Size(f: Formula): nat
  {
    match f
    case Atom(_) => 1
    case Not(x) => 1 + Size(x)
    case And(l, r) => 1 + Size(l) + Size(r)
    case Or(l, r) => 1 + Size(l) + Size(r)
    case Paren(x) => 1 + Size(x)
  }

  /** The operators still on the stack once the text of f has been read. */
  function Pending(f: Formula): string
  {
    match f
    case Not(_) => "!"
    case And(_, r) => "&" + Pending(r)
    case Or(_, r) => "|" + Pending(r)
    case _ => []
  }

  /** The output written while the text of f is read. */
  function Emitted(f: Formula): string
  {
    match f
    case Atom(c) => [c]
    case Not(x) => Postfix(x)
    case And(l, r) => Postfix(l) + Emitted(r)
    case Or(l, r) => Postfix(l) + Emitted(r)
    case Paren(x) => Postfix(x)
  }

  /** Flushing the pending operators completes the postfix text. */
  lemma {:induction false} EmittedThenPending(f: Formula)
    ensures Emitted(f) + Reverse(Pending(f)) == Postfix(f)
  {
    match f
    case Atom(_) =>
    case Paren(_) =>
    case Not(x) =>
    case And(l, r) =>
      EmittedThenPending(r);
      ReverseConcat("&", Pending(r));
    case Or(l, r) =>
      EmittedThenPending(r);
      ReverseConcat("|", Pending(r));
  }

  /** Pending operators bind at least as tightly as the formula's top level. */
  lemma {:induction false} PendingBinds(f: Formula)
    requires WellFormed(f)
    ensures forall k :: 0 <= k < |Pending(f)| ==> Precedence(Pending(f)[k]) >= Level(f)
  {
    match f
    case And(_, r) =>
      PendingBinds(r);
      forall k | 1 <= k < |Pending(f)|
        ensures Precedence(Pending(f)[k]) >= Level(f)
      {
        assert Pending(f)[k] == Pending(r)[k - 1];
      }
    case Or(_, r) =>
      PendingBinds(r);
      forall k | 1 <= k < |Pending(f)|
        ensures Precedence(Pending(f)[k]) >= Level(f)
      {
        assert Pending(f)[k] == Pending(r)[k - 1];
      }
    case _ =>
  }

  /** Popping for an operator of precedence p takes exactly the operators above a weaker top. */
  lemma {:induction false} PopAll(st: string, pend: string, output: string, p: int)
    requires forall k :: 0 <= k < |pend| ==> Precedence(pend[k]) >= p
    requires st == [] || Precedence(st[|st| - 1]) < p
    ensures PopWhile(st + pend, output, p) == (st, output + Reverse(pend))
    decreases |pend|
  {
    if pend == [] {
      assert st + pend == st;
      assert output + Reverse(pend) == output;
    } else {
      var front, top := pend[..|pend| - 1], pend[|pend| - 1];
      var whole := st + pend;
      calc {
        PopWhile(whole, output, p);
        { assert whole[..|whole| - 1] == st + front && whole[|whole| - 1] == top; }
        PopWhile(st + front, output + [top], p);
        { PopAll(st, front, output + [top], p); }
        (st, output + [top] + Reverse(front));
        { assert pend == front + [top];
          ReverseSnoc(front, top);
          assert Reverse(pend) == [top] + Reverse(front);
          assert output + [top] + Reverse(front) == output + ([top] + Reverse(front)); }
        (st, output + Reverse(pend));
      }
    }
  }

  lemma ReverseSnoc(front: string, top: char)
    ensures [top] + Reverse(front) == Reverse(front + [top])
  {
    ReverseConcat(front, [top]);
    assert Reverse([top]) == [top];
  }

  /** A closing parenthesis takes the operators above the matching `(`. */
  lemma {:induction false} PopParen(st: string, pend: string, output: string)
    requires forall k :: 0 <= k < |pend| ==> pend[k] != '('
    ensures PopToParen(st + "(" + pend, output) == (st + "(", output + Reverse(pend))
    decreases |pend|
  {
    if pend == [] {
      assert st + "(" + pend == st + "(";
      assert output + Reverse(pend) == output;
    } else {
      var front, top := pend[..|pend| - 1], pend[|pend| - 1];
      var whole := st + "(" + pend;
      calc {
        PopToParen(whole, output);
        { assert whole[..|whole| - 1] == st + "(" + front && whole[|whole| - 1] == top; }
        PopToParen(st + "(" + front, output + [top]);
        { PopParen(st, front, output + [top]); }
        (st + "(", output + [top] + Reverse(front));
        { assert pend == front + [top];
          ReverseSnoc(front, top);
          assert Reverse(pend) == [top] + Reverse(front);
          assert output + [top] + Reverse(front) == output + ([top] + Reverse(front)); }
        (st + "(", output + Reverse(pend));
      }
    }
  }

  /** One step of Shunt on an operand. */
  lemma ShuntOperandStep(c: char, rest: string, st: string, output: string)
    requires IsAlnum(c)
    ensures Shunt([c] + rest, st, output) == Shunt(rest, st, output + [c])
  {
    assert ([c] + rest)[1..] == rest;
  }

  /** One step of Shunt on `(`. */
  lemma ShuntOpenStep(rest: string, st: string, output: string)
    ensures Shunt("(" + rest, st, output) == Shunt(rest, st + "(", output)
  {
    assert ("(" + rest)[1..] == rest;
  }

  /** One step of Shunt on `)` when a `(` is on the stack. */
  lemma ShuntCloseStep(rest: string, st: string, output: string, below: string, output': string)
    requires PopToParen(st, output) == (below + "(", output')
    ensures Shunt(")" + rest, st, output) == Shunt(rest, below, output')
  {
    assert (")" + rest)[1..] == rest;
    assert (below + "(")[..|below + "("| - 1] == below;
  }

  /** One step of Shunt on an operator. */
  lemma ShuntOperatorStep(op: char, rest: string, st: string, output: string, below: string, output': string)
    requires op == '&' || op == '|' || op == '!'
    requires PopWhile(st, output, Precedence(op)) == (below, output')
    ensures Shunt([op] + rest, st, output) == Shunt(rest, below + [op], output')
  {
    assert ([op] + rest)[1..] == rest;
  }

  /**
   * Reading the text of f on a stack whose top binds more weakly than f's
   * top level outputs Emitted(f) and leaves Pending(f) above that stack.
   */
  lemma {:induction false} ShuntText(f: Formula, rest: string, st: string, output: string)
    requires WellFormed(f)
    requires st == [] || Precedence(st[|st| - 1]) < Level(f)
    ensures Shunt(Text(f) + rest, st, output) == Shunt(rest, st + Pending(f), output + Emitted(f))
    decreases Size(f), 2
  {
    match f
    case Atom(c) =>
      ShuntOperandStep(c, rest, st, output);
      assert st + Pending(f) == st;
    case Paren(x) =>
      ShuntParen(x, rest, st, output);
      assert st + Pending(f) == st && Emitted(f) == Postfix(x);
    case Not(x) =>
      ShuntNot(x, rest, st, output);
    case And(l, r) =>
      ShuntOperator(f, l, r, '&', rest, st, output);
    case Or(l, r) =>
      ShuntOperator(f, l, r, '|', rest, st, output);
  }

  /** The parenthesis case of ShuntText: `)` flushes what the inner formula left pending. */
  lemma {:induction false} ShuntParen(x: Formula, rest: string, st: string, output: string)
    requires WellFormed(x)
    ensures Shunt(Text(Paren(x)) + rest, st, output) == Shunt(rest, st, output + Postfix(x))
    decreases Size(x) + 1, 0
  {
    var st1, out1 := st + "(" + Pending(x), output + Emitted(x);
    calc {
      Shunt(Text(Paren(x)) + rest, st, output);
      { assert Text(Paren(x)) + rest == "(" + (Text(x) + (")" + rest));
        ShuntOpenStep(Text(x) + (")" + rest), st, output); }
      Shunt(Text(x) + (")" + rest), st + "(", output);
      { ShuntText(x, ")" + rest, st + "(", output); }
      Shunt(")" + rest, st1, out1);
      { CloseParen(x, rest, st, output); }
      Shunt(rest, st, output + Postfix(x));
    }
  }

  /** The closing parenthesis after the text of x flushes its pending operators and the `(`. */
  lemma CloseParen(x: Formula, rest: string, st: string, output: string)
    requires WellFormed(x)
    ensures Shunt(")" + rest, st + "(" + Pending(x), output + Emitted(x)) == Shunt(rest, st, output + Postfix(x))
  {
    var out1 := output + Emitted(x);
    calc {
      Shunt(")" + rest, st + "(" + Pending(x), out1);
      { PendingBinds(x);
        PopParen(st, Pending(x), out1);
        ShuntCloseStep(rest, st + "(" + Pending(x), out1, st, out1 + Reverse(Pending(x))); }
      Shunt(rest, st, out1 + Reverse(Pending(x)));
      { EmittedThenPending(x);
        assert out1 + Reverse(Pending(x)) == output + Postfix(x); }
      Shunt(rest, st, output + Postfix(x));
    }
  }

  /** The negation case of ShuntText: `!` pops nothing and stays pending. */
  lemma {:induction false} ShuntNot(x: Formula, rest: string, st: string, output: string)
    requires WellFormed(Not(x))
    requires st == [] || Precedence(st[|st| - 1]) < 3
    ensures Shunt(Text(Not(x)) + rest, st, output) == Shunt(rest, st + "!", output + Postfix(x))
    decreases Size(x) + 1, 0
  {
    assert Text(Not(x)) + rest == "!" + (Text(x) + rest);
    PopAll(st, [], output, 3);
    assert st + [] == st && output + Reverse([]) == output;
    ShuntOperatorStep('!', Text(x) + rest, st, output, st, output);
    ShuntText(x, rest, st + "!", output);
    assert Pending(x) == [] && Emitted(x) == Postfix(x);
    assert st + "!" + [] == st + "!";
  }

  /** The binary case of ShuntText: the left operand, then the operator, then the right operand. */
  lemma {:induction false} ShuntOperator(f: Formula, l: Formula, r: Formula, op: char, rest: string, st: string, output: string)
    requires f == And(l, r) || f == Or(l, r)
    requires op == (if f.And? then '&' else '|')
    requires WellFormed(f)
    requires st == [] || Precedence(st[|st| - 1]) < Level(f)
    ensures Shunt(Text(f) + rest, st, output) == Shunt(rest, st + Pending(f), output + Emitted(f))
    decreases Size(f), 0
  {
    var tail := Text(r) + rest;
    calc {
      Shunt(Text(f) + rest, st, output);
      { assert Text(f) + rest == Text(l) + ([op] + tail); }
      Shunt(Text(l) + ([op] + tail), st, output);
      { ShuntLeftOperand(l, op, tail, st, output); }
      Shunt(tail, st + [op], output + Postfix(l));
      { ShuntText(r, rest, st + [op], output + Postfix(l)); }
      Shunt(rest, st + [op] + Pending(r), output + Postfix(l) + Emitted(r));
      { assert st + [op] + Pending(r) == st + Pending(f);
        assert output + Postfix(l) + Emitted(r) == output + Emitted(f); }
      Shunt(rest, st + Pending(f), output + Emitted(f));
    }
  }

  /** The operator after a left operand flushes the operand's pending operators and is pushed. */
  lemma {:induction false} ShuntLeftOperand(l: Formula, op: char, tail: string, st: string, output: string)
    requires op == '&' || op == '|'
    requires WellFormed(l) && Level(l) >= Precedence(op)
    requires st == [] || Precedence(st[|st| - 1]) < Precedence(op)
    ensures Shunt(Text(l) + ([op] + tail), st, output) == Shunt(tail, st + [op], output + Postfix(l))
    decreases Size(l), 3
  {
    ShuntText(l, [op] + tail, st, output);
    FlushForOperator(l, op, tail, st, output);
  }

  lemma FlushForOperator(l: Formula, op: char, tail: string, st: string, output: string)
    requires op == '&' || op == '|'
    requires WellFormed(l) && Level(l) >= Precedence(op)
    requires st == [] || Precedence(st[|st| - 1]) < Precedence(op)
    ensures Shunt([op] + tail, st + Pending(l), output + Emitted(l)) == Shunt(tail, st + [op], output + Postfix(l))
  {
    FlushPending(l, Precedence(op), st, output);
    ShuntOperatorStep(op, tail, st + Pending(l), output + Emitted(l), st, output + Postfix(l));
  }

  /** Popping for an operator no tighter than f's top level empties exactly f's pending operators. */
  lemma FlushPending(f: Formula, p: int, st: string, output: string)
    requires WellFormed(f) && Level(f) >= p
    requires st == [] || Precedence(st[|st| - 1]) < p
    ensures PopWhile(st + Pending(f), output + Emitted(f), p) == (st, output + Postfix(f))
  {
    PendingBinds(f);
    EmittedThenPending(f);
    FlushSeq(st, Pending(f), output, Emitted(f), Postfix(f), p);
  }

  lemma FlushSeq(st: string, pend: string, output: string, emitted: string, post: string, p: int)
    requires forall k :: 0 <= k < |pend| ==> Precedence(pend[k]) >= p
    requires st == [] || Precedence(st[|st| - 1]) < p
    requires emitted + Reverse(pend) == post
    ensures PopWhile(st + pend, output + emitted, p) == (st, output + post)
  {
    PopAll(st, pend, output + emitted, p);
    assert output + emitted + Reverse(pend) == output + post;
  }

  /** `infix_to_postfix` turns the text of a well-formed formula into its postfix text. */
  lemma InfixToPostfixCorrect(f: Formula)
    requires WellFormed(f)
    ensures Shunt(Text(f), [], []) == Ok(Postfix(f))
  {
    ShuntText(f, [], [], []);
    assert Text(f) + [] == Text(f);
    assert [] + Pending(f) == Pending(f) && [] + Emitted(f) == Emitted(f);
    EmittedThenPending(f);
  }

  /** The postfix text of f pushes exactly the value of f. */
  lemma {:induction false} EvalPostfix(f: Formula, rest: string, stack: seq<bool>, env: map<char, bool>)
    requires WellFormed(f) && Defined(f, env)
    ensures EvalFrom(Postfix(f) + rest, stack, env) == EvalFrom(rest, stack + [Sem(f, env)], env)
    decreases Size(f), 1
  {
    match f
    case Atom(c) =>
      assert ([c] + rest)[1..] == rest;
    case Paren(x) =>
      EvalPostfix(x, rest, stack, env);
    case Not(x) =>
      assert Postfix(f) + rest == Postfix(x) + ("!" + rest);
      EvalPostfix(x, "!" + rest, stack, env);
      assert ("!" + rest)[1..] == rest;
      assert (stack + [Sem(x, env)])[..|stack|] == stack;
    case And(l, r) =>
      EvalOperator(l, r, '&', rest, stack, env);
    case Or(l, r) =>
      EvalOperator(l, r, '|', rest, stack, env);
  }

  lemma {:induction false} EvalOperator(l: Formula, r: Formula, op: char, rest: string, stack: seq<bool>, env: map<char, bool>)
    requires op == '&' || op == '|'
    requires WellFormed(l) && Defined(l, env) && WellFormed(r) && Defined(r, env)
    ensures EvalFrom(Postfix(l) + Postfix(r) + [op] + rest, stack, env)
         == EvalFrom(rest, stack + [if op == '&' then Sem(l, env) && Sem(r, env) else Sem(l, env) || Sem(r, env)], env)
    decreases Size(l) + Size(r) + 1, 0
  {
    var a, b := Sem(l, env), Sem(r, env);
    calc {
      EvalFrom(Postfix(l) + Postfix(r) + [op] + rest, stack, env);
      { assert Postfix(l) + Postfix(r) + [op] + rest == Postfix(l) + (Postfix(r) + ([op] + rest)); }
      EvalFrom(Postfix(l) + (Postfix(r) + ([op] + rest)), stack, env);
      { EvalPostfix(l, Postfix(r) + ([op] + rest), stack, env); }
      EvalFrom(Postfix(r) + ([op] + rest), stack + [a], env);
      { EvalPostfix(r, [op] + rest, stack + [a], env); }
      EvalFrom([op] + rest, stack + [a] + [b], env);
      { EvalBinaryStep(op, rest, stack, a, b, env); }
      EvalFrom(rest, stack + [if op == '&' then a && b else a || b], env);
    }
  }

  /** One step of EvalFrom on a binary operator. */
  lemma EvalBinaryStep(op: char, rest: string, stack: seq<bool>, a: bool, b: bool, env: map<char, bool>)
    requires op == '&' || op == '|'
    ensures EvalFrom([op] + rest, stack + [a] + [b], env) == EvalFrom(rest, stack + [if op == '&' then a && b else a || b], env)
  {
    var s := stack + [a] + [b];
    assert ([op] + rest)[1..] == rest;
    assert s[..|s| - 2] == stack;
  }

  /**
   * The two loops together: for a well-formed formula whose variables all
   * have values, the postfix text evaluates to the formula's Boolean value,
   * with `!` binding tighter than `&` and `&` tighter than `|`.
   */
  lemma FormulaValue(f: Formula, env: map<char, bool>)
    requires WellFormed(f) && Defined(f, env)
    ensures Shunt(Text(f), [], []) == Ok(Postfix(f))
    ensures EvalFrom(Postfix(f), [], env) == Ok(Sem(f, env))
  {
    InfixToPostfixCorrect(f);
    EvalPostfix(f, [], [], env);
    assert Postfix(f) + [] == Postfix(f);
  }

  // ---------------------------------------------------------------------
  // `truth_table`

  predicate Increasing(r: seq<char>)
  {
    forall a, b :: 0 <= a < b < |r| ==> r[a] < r[b]
  }

  /** Adds c to a strictly increasing sequence of characters unless it is already there. */
  function InsertSorted(c: char, r: seq<char>): seq<char>
  {
    if r == [] then [c]
    else if c < r[0] then [c] + r
    else if c == r[0] then r
    else [r[0]] + InsertSorted(c, r[1..])
  }

  lemma {:induction false} InsertSortedCorrect(c: char, r: seq<char>)
    requires Increasing(r)
    ensures Increasing(InsertSorted(c, r))
    ensures forall x :: x in InsertSorted(c, r) <==> x == c || x in r
  {
    if r != [] && c > r[0] {
      InsertSortedCorrect(c, r[1..]);
      var t := InsertSorted(c, r[1..]);
      assert forall x :: x in r <==> x == r[0] || x in r[1..];
      forall a, b | 0 <= a < b < |[r[0]] + t|
        ensures ([r[0]] + t)[a] < ([r[0]] + t)[b]
      {
        if a == 0 {
          assert ([r[0]] + t)[b] in t;
        }
      }
    }
  }

  /** `sorted({token for token in expression if token.isalpha()})`. */
  function Variables(expr: string): (vars: seq<char>)
    ensures Increasing(vars)
    ensures forall c :: c in vars <==> c in expr && IsLetter(c)
    decreases |expr|
  {
    if expr == [] then []
    else
      var front, last := expr[..|expr| - 1], expr[|expr| - 1];
      var v := Variables(front);
      InsertSortedCorrect(last, v);
      assert forall c :: c in expr <==> c in front || c == last by {
        assert expr == front + [last];
      }
      if IsLetter(last) then InsertSorted(last, v) else v
  }

  function Pow2(n: nat): (p: nat)
    ensures p >= 1
  {
    if n == 0 then 1 else 2 * Pow2(n - 1)
  }

  /**
   * `itertools.product([False, True], repeat=n)`: all n-tuples, with the
   * first position varying slowest and False before True.
   */
  function Combinations(n: nat): (r: seq<seq<bool>>)
    ensures |r| == Pow2(n)
    ensures forall k :: 0 <= k < |r| ==> |r[k]| == n
  {
    if n == 0 then [[]]
    else
      var c := Combinations(n - 1);
      seq(|c|, k requires 0 <= k < |c| => [false] + c[k]) + seq(|c|, k requires 0 <= k < |c| => [true] + c[k])
  }

  /** The number whose n-digit binary form, most significant first, is s. */
  function Index(s: seq<bool>): (i: nat)
    ensures i < Pow2(|s|)
  {
    if s == [] then 0 else (if s[0] then Pow2(|s| - 1) else 0) + Index(s[1..])
  }

  /** The first half of the n-value combinations starts with False, the second with True. */
  lemma CombinationHalves(n: nat, k: nat)
    requires n > 0 && k < Pow2(n)
    ensures k < Pow2(n - 1) ==> Combinations(n)[k] == [false] + Combinations(n - 1)[k]
    ensures k >= Pow2(n - 1) ==> Combinations(n)[k] == [true] + Combinations(n - 1)[k - Pow2(n - 1)]
  {
  }

  lemma IndexCons(b: bool, t: seq<bool>)
    ensures Index([b] + t) == (if b then Pow2(|t|) else 0) + Index(t)
  {
    assert ([b] + t)[1..] == t;
  }

  /** The k-th combination is k written in binary: the rows count up from all False. */
  lemma {:induction false} CombinationIndex(n: nat, k: nat)
    requires k < Pow2(n)
    ensures Index(Combinations(n)[k]) == k
  {
    if n > 0 {
      var c := Combinations(n - 1);
      var half := Pow2(n - 1);
      CombinationHalves(n, k);
      if k < half {
        CombinationIndex(n - 1, k);
        IndexCons(false, c[k]);
      } else {
        CombinationIndex(n - 1, k - half);
        IndexCons(true, c[k - half]);
      }
    }
  }

  /** Every assignment of n values occurs among the combinations, at its binary index. */
  lemma {:induction false} CombinationOf(s: seq<bool>)
    ensures Combinations(|s|)[Index(s)] == s
  {
    if s != [] {
      var t := s[1..];
      CombinationOf(t);
      assert s == [s[0]] + t;
      IndexCons(s[0], t);
      CombinationHalves(|s|, Index(s));
    }
  }

  /** `dict(zip(variables, combination))`. */
  function Env(vars: seq<char>, combo: seq<bool>): (env: map<char, bool>)
    requires Increasing(vars) && |combo| == |vars|
    ensures forall c :: c in env <==> c in vars
    ensures forall i :: 0 <= i < |vars| ==> vars[i] in env && env[vars[i]] == combo[i]
  {
    map i | 0 <= i < |vars| :: vars[i] := combo[i]
  }

  /** The evaluation of each combination in turn; the first failure is the result. */
  function EvaluateAll(expr: string, vars: seq<char>, combos: seq<seq<bool>>): (r: Result<seq<bool>>)
    requires Increasing(vars) && forall k :: 0 <= k < |combos| ==> |combos[k]| == |vars|
    ensures r.Ok? ==> |r.value| == |combos|
  {
    if combos == [] then Ok([])
    else
      match EvaluateAll(expr, vars, combos[..|combos| - 1])
      case Error(e) => Error(e)
      case Ok(values) =>
        match EvalFrom(expr, [], Env(vars, combos[|combos| - 1]))
        case Error(e) => Error(e)
        case Ok(v) => Ok(values + [v])
  }

  /** Once a prefix of the combinations fails, the whole evaluation fails the same way. */
  lemma {:induction false} EvaluateAllFails(expr: string, vars: seq<char>, combos: seq<seq<bool>>, m: nat, e: string)
    requires Increasing(vars) && forall k :: 0 <= k < |combos| ==> |combos[k]| == |vars|
    requires m <= |combos| && EvaluateAll(expr, vars, combos[..m]) == Error(e)
    ensures EvaluateAll(expr, vars, combos) == Error(e)
    decreases |combos| - m
  {
    if m < |combos| {
      assert combos[..m + 1][..m] == combos[..m];
      EvaluateAllFails(expr, vars, combos, m + 1, e);
    } else {
      assert combos[..m] == combos;
    }
  }

  /** Evaluating one more combination extends the results by its value. */
  lemma EvaluateAllStep(expr: string, vars: seq<char>, combos: seq<seq<bool>>, k: nat, results: seq<bool>, v: bool)
    requires Increasing(vars) && forall j :: 0 <= j < |combos| ==> |combos[j]| == |vars|
    requires k < |combos| && EvaluateAll(expr, vars, combos[..k]) == Ok(results)
    requires EvalFrom(expr, [], Env(vars, combos[k])) == Ok(v)
    ensures EvaluateAll(expr, vars, combos[..k + 1]) == Ok(results + [v])
  {
    assert combos[..k + 1][..k] == combos[..k];
  }

  function Bit(b: bool): string
  {
    if b then "1" else "0"
  }

  /** The items of parts with sep between each two. */
  function Join(sep: string, parts: seq<string>): string
  {
    if parts == [] then []
    else if |parts| == 1 then parts[0]
    else parts[0] + sep + Join(sep, parts[1..])
  }

  /** A table row: the values of the variables and the value of the formula, as 0 and 1. */
  function Row(combo: seq<bool>, result: bool): string
  {
    Join(" | ", seq(|combo|, i requires 0 <= i < |combo| => Bit(combo[i]))) + " | " + Bit(result)
  }

  function Header(vars: seq<char>, fstring: string): string
  {
    Join(" | ", seq(|vars|, i requires 0 <= i < |vars| => [vars[i]])) + " | " + fstring
  }

  function Dashes(n: nat): string
  {
    seq(n * 4 + 10, _ => '-')
  }

  const Contradictory: string := "Формула является противоречивой."
  const NotContradictory: string := "Формула не является противоречивой."

  /** Mode 2 shows every row, mode 1 the rows where the formula is true; other modes show none. */
  predicate Kept(mode: int, result: bool)
  {
    mode == 2 || (mode == 1 && result)
  }

  function KeptRows(combos: seq<seq<bool>>, results: seq<bool>, mode: int): (rows: seq<string>)
    requires |combos| == |results|
    ensures |rows| <= |combos|
  {
    if combos == [] then []
    else
      var n := |combos| - 1;
      KeptRows(combos[..n], results[..n], mode) + (if Kept(mode, results[n]) then [Row(combos[n], results[n])] else [])
  }

  lemma KeptRowsStep(combos: seq<seq<bool>>, results: seq<bool>, v: bool, k: nat, mode: int)
    requires k < |combos| && |results| == k
    ensures KeptRows(combos[..k + 1], results + [v], mode)
         == KeptRows(combos[..k], results, mode) + (if Kept(mode, v) then [Row(combos[k], v)] else [])
  {
    assert combos[..k + 1][..k] == combos[..k];
    assert (results + [v])[..k] == results;
  }

  /** What `truth_table` returns once every combination has been evaluated. */
  function Report(vars: seq<char>, fstring: string, mode: int, combos: seq<seq<bool>>, results: seq<bool>): string
    requires |combos| == |results|
  {
    if mode == 0 then
      if NoneTrue(results) then Contradictory else NotContradictory
    else Join("\n", [Header(vars, fstring), Dashes(|vars|)] + KeptRows(combos, results, mode))
  }

  /**
   * `truth_table`: evaluates the postfix expression under every combination
   * of its sorted variables; mode 0 reports whether no row is true, other
   * modes print the header, the dashes and the kept rows.
   */
  method TruthTableText(expression: string, fstring: string, mode: int) returns (r: Result<string>)
    ensures var vars := Variables(expression);
            var combos := Combinations(|vars|);
            match EvaluateAll(expression, vars, combos)
            case Error(e) => r == Error(e)
            case Ok(results) => r == Ok(Report(vars, fstring, mode, combos, results))
  {
    var variables := Variables(expression);
    var combinations := Combinations(|variables|);
    r := TableLoop(expression, fstring, mode, variables, combinations);
  }

  /** The loop of `truth_table` over the given combinations, with the text it returns. */
  method TableLoop(expression: string, fstring: string, mode: int, variables: seq<char>, combinations: seq<seq<bool>>)
    returns (r: Result<string>)
    requires Increasing(variables) && forall k :: 0 <= k < |combinations| ==> |combinations[k]| == |variables|
    ensures match EvaluateAll(expression, variables, combinations)
            case Error(e) => r == Error(e)
            case Ok(results) => r == Ok(Report(variables, fstring, mode, combinations, results))
  {
    var resultTable := [Header(variables, fstring), Dashes(|variables|)];
    var contradictory := true;
    ghost var results: seq<bool> := [];
    assert combinations[..0] == [];
    for k := 0 to |combinations|
      invariant TableSoFar(expression, fstring, mode, variables, combinations, k, results, resultTable, contradictory)
    {
      var result, table, stillContradictory := TableRow(expression, variables, combinations[k], mode, resultTable, contradictory);
      if result.Error? {
        TableFails(expression, fstring, mode, variables, combinations, k, results, result.reason);
        return Error(result.reason);
      }
      TableGrows(expression, fstring, mode, variables, combinations, k, results, resultTable, contradictory, result.value);
      resultTable, contradictory := table, stillContradictory;
      results := results + [result.value];
    }
    TableDone(expression, fstring, mode, variables, combinations, results, resultTable, contradictory);
    if mode == 0 {
      return Ok(if contradictory then Contradictory else NotContradictory);
    }
    r := Ok(Join("\n", resultTable));
  }

  /** The state of `truth_table` after its first k combinations. */
  ghost predicate TableSoFar(expression: string, fstring: string, mode: int, variables: seq<char>, combinations: seq<seq<bool>>,
                             k: nat, results: seq<bool>, resultTable: seq<string>, contradictory: bool)
    requires Increasing(variables) && forall j :: 0 <= j < |combinations| ==> |combinations[j]| == |variables|
  {
    k <= |combinations| && |results| == k
    && EvaluateAll(expression, variables, combinations[..k]) == Ok(results)
    && (mode == 0 ==> contradictory == NoneTrue(results))
    && resultTable == [Header(variables, fstring), Dashes(|variables|)] + KeptRows(combinations[..k], results, mode)
  }

  lemma TableFails(expression: string, fstring: string, mode: int, variables: seq<char>, combinations: seq<seq<bool>>,
                   k: nat, results: seq<bool>, e: string)
    requires Increasing(variables) && forall j :: 0 <= j < |combinations| ==> |combinations[j]| == |variables|
    requires k < |combinations| && EvaluateAll(expression, variables, combinations[..k]) == Ok(results)
    requires EvalFrom(expression, [], Env(variables, combinations[k])) == Error(e)
    ensures EvaluateAll(expression, variables, combinations) == Error(e)
  {
    assert combinations[..k + 1][..k] == combinations[..k];
    EvaluateAllFails(expression, variables, combinations, k + 1, e);
  }

  lemma TableGrows(expression: string, fstring: string, mode: int, variables: seq<char>, combinations: seq<seq<bool>>,
                   k: nat, results: seq<bool>, resultTable: seq<string>, contradictory: bool, v: bool)
    requires Increasing(variables) && forall j :: 0 <= j < |combinations| ==> |combinations[j]| == |variables|
    requires k < |combinations|
    requires TableSoFar(expression, fstring, mode, variables, combinations, k, results, resultTable, contradictory)
    requires EvalFrom(expression, [], Env(variables, combinations[k])) == Ok(v)
    ensures TableSoFar(expression, fstring, mode, variables, combinations, k + 1, results + [v],
                       resultTable + (if Kept(mode, v) then [Row(combinations[k], v)] else []),
                       contradictory && (mode != 0 || !v))
  {
    EvaluateAllStep(expression, variables, combinations, k, results, v);
    KeptRowsStep(combinations, results, v, k, mode);
    NoneTrueStep(results, v);
  }

  lemma TableDone(expression: string, fstring: string, mode: int, variables: seq<char>, combinations: seq<seq<bool>>,
                  results: seq<bool>, resultTable: seq<string>, contradictory: bool)
    requires Increasing(variables) && forall j :: 0 <= j < |combinations| ==> |combinations[j]| == |variables|
    requires TableSoFar(expression, fstring, mode, variables, combinations, |combinations|, results, resultTable, contradictory)
    ensures EvaluateAll(expression, variables, combinations) == Ok(results)
    ensures mode == 0 ==> Report(variables, fstring, mode, combinations, results) == (if contradictory then Contradictory else NotContradictory)
    ensures mode != 0 ==> Report(variables, fstring, mode, combinations, results) == Join("\n", resultTable)
  {
    assert combinations[..|combinations|] == combinations;
  }

  /** One turn of the loop over the combinations in `truth_table`. */
  method TableRow(expression: string, variables: seq<char>, combination: seq<bool>, mode: int,
                  resultTable: seq<string>, contradictory: bool)
    returns (result: Result<bool>, table: seq<string>, stillContradictory: bool)
    requires Increasing(variables) && |combination| == |variables|
    ensures result == EvalFrom(expression, [], Env(variables, combination))
    ensures result.Ok? ==> stillContradictory == (contradictory && (mode != 0 || !result.value))
    ensures result.Ok? ==> table == resultTable + (if Kept(mode, result.value) then [Row(combination, result.value)] else [])
  {
    var variableValues := Env(variables, combination);
    result := CalculatePostfix(expression, variableValues);
    table, stillContradictory := resultTable, contradictory;
    assert resultTable + [] == resultTable;
    if result.Error? {
      return;
    }
    if mode == 0 {
      if result.value {
        stillContradictory := false;
      }
    } else if mode == (if result.value then 1 else 0) || mode == 2 {
      table := resultTable + [Row(combination, result.value)];
    }
  }

  predicate NoneTrue(results: seq<bool>)
  {
    forall j :: 0 <= j < |results| ==> !results[j]
  }

  lemma NoneTrueStep(results: seq<bool>, v: bool)
    ensures NoneTrue(results + [v]) == (NoneTrue(results) && !v)
  {
    if NoneTrue(results) && !v {
      forall j | 0 <= j < |results| + 1
        ensures !(results + [v])[j]
      {
        if j < |results| {
          assert (results + [v])[j] == results[j];
        }
      }
    }
    if NoneTrue(results + [v]) {
      assert (results + [v])[|results|] == v;
      forall j | 0 <= j < |results|
        ensures !results[j]
      {
        assert (results + [v])[j] == results[j];
      }
    }
  }

  // ---------------------------------------------------------------------
  // What the table says about a formula

  /** Every letter of the postfix text having a value is enough for the value of the formula. */
  lemma {:induction false} DefinedByLetters(f: Formula, env: map<char, bool>)
    requires WellFormed(f)
    requires forall c :: c in Postfix(f) && IsLetter(c) ==> c in env
    ensures Defined(f, env)
  {
    match f
    case Atom(c) =>
      assert c in Postfix(f);
    case Not(x) =>
      assert forall c :: c in Postfix(x) ==> c in Postfix(f);
      DefinedByLetters(x, env);
    case And(l, r) =>
      assert forall c :: c in Postfix(l) ==> c in Postfix(f);
      assert forall c :: c in Postfix(r) ==> c in Postfix(f);
      DefinedByLetters(l, env);
      DefinedByLetters(r, env);
    case Or(l, r) =>
      assert forall c :: c in Postfix(l) ==> c in Postfix(f);
      assert forall c :: c in Postfix(r) ==> c in Postfix(f);
      DefinedByLetters(l, env);
      DefinedByLetters(r, env);
    case Paren(x) =>
      DefinedByLetters(x, env);
  }

  /** Under every combination of the variables of the postfix text, every atom has a value. */
  lemma DefinedForAll(f: Formula, s: seq<bool>)
    requires WellFormed(f) && |s| == |Variables(Postfix(f))|
    ensures Defined(f, Env(Variables(Postfix(f)), s))
  {
    DefinedByLetters(f, Env(Variables(Postfix(f)), s));
  }

  /** The value of f under each combination, in order. */
  function Values(f: Formula, vars: seq<char>, combos: seq<seq<bool>>): (r: seq<bool>)
    requires Increasing(vars) && forall k :: 0 <= k < |combos| ==> |combos[k]| == |vars|
    requires forall k :: 0 <= k < |combos| ==> Defined(f, Env(vars, combos[k]))
    ensures |r| == |combos|
  {
    seq(|combos|, k requires 0 <= k < |combos| => Sem(f, Env(vars, combos[k])))
  }

  /** No combination fails on the postfix text of a formula whose atoms all have values. */
  lemma {:induction false} EvaluateFormula(f: Formula, vars: seq<char>, combos: seq<seq<bool>>)
    requires WellFormed(f) && Increasing(vars) && forall k :: 0 <= k < |combos| ==> |combos[k]| == |vars|
    requires forall k :: 0 <= k < |combos| ==> Defined(f, Env(vars, combos[k]))
    ensures EvaluateAll(Postfix(f), vars, combos) == Ok(Values(f, vars, combos))
  {
    if combos != [] {
      var n := |combos| - 1;
      var front := Values(f, vars, combos[..n]);
      var v := Sem(f, Env(vars, combos[n]));
      EvaluateFormula(f, vars, combos[..n]);
      FormulaValue(f, Env(vars, combos[n]));
      EvaluateAllStep(Postfix(f), vars, combos, n, front, v);
      assert combos[..n + 1] == combos;
      ValuesSnoc(f, vars, combos);
    }
  }

  lemma ValuesSnoc(f: Formula, vars: seq<char>, combos: seq<seq<bool>>)
    requires Increasing(vars) && forall k :: 0 <= k < |combos| ==> |combos[k]| == |vars|
    requires forall k :: 0 <= k < |combos| ==> Defined(f, Env(vars, combos[k]))
    requires combos != []
    ensures Values(f, vars, combos[..|combos| - 1]) + [Sem(f, Env(vars, combos[|combos| - 1]))] == Values(f, vars, combos)
  {
  }

  /**
   * Mode 0 of the table of a well-formed formula: no evaluation fails, and
   * the answer is "contradictory" exactly when no assignment of its variables
   * makes the formula true.
   */
  lemma ModeZeroMeansUnsatisfiable(f: Formula, fstring: string)
    requires WellFormed(f)
    ensures forall s :: |s| == |Variables(Postfix(f))| ==> Defined(f, Env(Variables(Postfix(f)), s))
    ensures EvaluateAll(Postfix(f), Variables(Postfix(f)), Combinations(|Variables(Postfix(f))|)).Ok?
    ensures var vars := Variables(Postfix(f));
            var combos := Combinations(|vars|);
            Report(vars, fstring, 0, combos, EvaluateAll(Postfix(f), vars, combos).value) == Contradictory
            <==> forall s :: |s| == |vars| ==> !Sem(f, Env(vars, s))
  {
    var vars := Variables(Postfix(f));
    var combos := Combinations(|vars|);
    forall s | |s| == |vars|
      ensures Defined(f, Env(vars, s))
    {
      DefinedForAll(f, s);
    }
    EvaluateFormula(f, vars, combos);
    NoneTrueMeansUnsatisfiable(f, vars);
    assert |Contradictory| != |NotContradictory|;
  }

  /** No row of the table is true exactly when no assignment makes the formula true. */
  lemma NoneTrueMeansUnsatisfiable(f: Formula, vars: seq<char>)
    requires Increasing(vars)
    requires forall s :: |s| == |vars| ==> Defined(f, Env(vars, s))
    ensures NoneTrue(Values(f, vars, Combinations(|vars|))) <==> forall s :: |s| == |vars| ==> !Sem(f, Env(vars, s))
  {
    var combos := Combinations(|vars|);
    var results := Values(f, vars, combos);
    if NoneTrue(results) {
      forall s | |s| == |vars|
        ensures !Sem(f, Env(vars, s))
      {
        CombinationOf(s);
        assert !results[Index(s)];
      }
    } else {
      var k :| 0 <= k < |results| && results[k];
      assert |combos[k]| == |vars| && Sem(f, Env(vars, combos[k]));
    }
  }

  /** Mode 2 keeps one row per combination, in the order of the combinations. */
  lemma {:induction false} ModeTwoKeepsAll(combos: seq<seq<bool>>, results: seq<bool>)
    requires |combos| == |results|
    ensures KeptRows(combos, results, 2) == seq(|combos|, k requires 0 <= k < |combos| => Row(combos[k], results[k]))
  {
    if combos != [] {
      var n := |combos| - 1;
      ModeTwoKeepsAll(combos[..n], results[..n]);
    }
  }

  /** The positions of the true entries, in increasing order. */
  function TrueIndices(results: seq<bool>): (t: seq<nat>)
    ensures forall i :: 0 <= i < |t| ==> t[i] < |results| && results[t[i]]
    ensures forall i, j :: 0 <= i < j < |t| ==> t[i] < t[j]
    ensures forall k :: 0 <= k < |results| && results[k] ==> k in t
  {
    if results == [] then []
    else
      var n := |results| - 1;
      var front := TrueIndices(results[..n]);
      assert forall k :: 0 <= k < n ==> results[..n][k] == results[k];
      front + (if results[n] then [n] else [])
  }

  /** Mode 1 keeps the rows where the formula is true, in the order of the combinations. */
  lemma {:induction false} ModeOneKeepsTrue(combos: seq<seq<bool>>, results: seq<bool>)
    requires |combos| == |results|
    ensures var t := TrueIndices(results);
            KeptRows(combos, results, 1) == seq(|t|, i requires 0 <= i < |t| => Row(combos[t[i]], true))
  {
    if combos != [] {
      var n := |combos| - 1;
      ModeOneKeepsTrue(combos[..n], results[..n]);
    }
  }

  /** A mode other than 0, 1 and 2 keeps no row. */
  lemma {:induction false} OtherModesKeepNothing(combos: seq<seq<bool>>, results: seq<bool>, mode: int)
    requires |combos| == |results| && mode != 1 && mode != 2
    ensures KeptRows(combos, results, mode) == []
  {
    if combos != [] {
      var n := |combos| - 1;
      OtherModesKeepNothing(combos[..n], results[..n], mode);
    }
  }
}
