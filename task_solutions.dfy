/**
 * The stack and deque tasks of lab02/src/task_solutions.py: the bracket
 * balance checker, the deque palindrome check and the print queue.
 */
module TaskSolutions {
  import opened Wrappers

  // ---------------------------------------------------------------------
  // check_brackets_balance
  // ---------------------------------------------------------------------

  /** The three kinds of bracket the checker knows. */
  datatype Kind = Round | Square | Curly

  function Open(k: Kind): char
  {
    match k
    case Round => '('
    case Square => '['
    case Curly => '{'
  }

  function Close(k: Kind): char
  {
    match k
    case Round => ')'
    case Square => ']'
    case Curly => '}'
  }

  /** One of '(', '[', '{': the characters the checker pushes. */
  predicate IsOpener(c: char)
  {
    c == '(' || c == '[' || c == '{'
  }

  /** One of ')', ']', '}': the keys of the checker's `brackets` dictionary. */
  predicate IsCloser(c: char)
  {
    c == ')' || c == ']' || c == '}'
  }

  /** The `brackets` dictionary: the opener each closer must match. */
  function OpenerOf(c: char): (o: char)
    requires IsCloser(c)
    ensures IsOpener(o)
  {
    if c == ')' then '(' else if c == ']' then '[' else '{'
  }

  /** The kind of an opening bracket. */
  function KindOf(c: char): (k: Kind)
    requires IsOpener(c)
    ensures Open(k) == c
  {
    if c == '(' then Round else if c == '[' then Square else Curly
  }

  /** The stack algorithm as a function: the stack left after reading s from
      the given stack, or None where a closing bracket meets an empty stack or
      an opener of another kind. */
  function Scan(s: string, stack: seq<char>): (r: Option<seq<char>>)
    ensures r == Some([]) ==> |stack| <= |s|
  {
    if s == [] then Some(stack)
    else if IsOpener(s[0]) then Scan(s[1..], stack + [s[0]])
    else if IsCloser(s[0]) then
      if stack == [] || stack[|stack| - 1] != OpenerOf(s[0]) then None
      else Scan(s[1..], stack[..|stack| - 1])
    else Scan(s[1..], stack)
  }

  /** Every character of s is one of the six brackets. */
  predicate BracketsOnly(s: string)
  {
    s == [] || ((IsOpener(s[0]) || IsCloser(s[0])) && BracketsOnly(s[1..]))
  }

  /** The bracket characters of s, in order; everything else dropped. */
  function Brackets(s: string): (b: string)
    ensures BracketsOnly(b)
  {
    if s == [] then []
    else if IsOpener(s[0]) || IsCloser(s[0]) then [s[0]] + Brackets(s[1..])
    else Brackets(s[1..])
  }

  /** Characters other than the six brackets do not affect the stack. */
  lemma {:induction false} ScanIgnoresOthers(s: string, stack: seq<char>)
    ensures Scan(s, stack) == Scan(Brackets(s), stack)
  {
    if s != [] {
      if IsOpener(s[0]) {
        ScanIgnoresOthers(s[1..], stack + [s[0]]);
      } else if IsCloser(s[0]) {
        if stack != [] && stack[|stack| - 1] == OpenerOf(s[0]) {
          ScanIgnoresOthers(s[1..], stack[..|stack| - 1]);
        }
      } else {
        ScanIgnoresOthers(s[1..], stack);
      }
    }
  }

  /** All elements of the stack are opening brackets. */
  predicate OpenersOnly(stack: seq<char>)
  {
    forall i :: 0 <= i < |stack| ==> IsOpener(stack[i])
  }

  /** The stack only ever holds opening brackets. */
  lemma {:induction false} ScanKeepsOpeners(s: string, stack: seq<char>)
    requires OpenersOnly(stack)
    ensures Scan(s, stack).Some? ==> OpenersOnly(Scan(s, stack).value)
  {
    if s != [] {
      if IsOpener(s[0]) {
        ScanKeepsOpeners(s[1..], stack + [s[0]]);
      } else if IsCloser(s[0]) {
        if stack != [] && stack[|stack| - 1] == OpenerOf(s[0]) {
          ScanKeepsOpeners(s[1..], stack[..|stack| - 1]);
        }
      } else {
        ScanKeepsOpeners(s[1..], stack);
      }
    }
  }

  /** A properly nested bracket sequence: nothing, or a bracket pair around a
      nested sequence, followed by a nested sequence. */
  datatype Nest = Empty | Group(kind: Kind, inner: Nest, next: Nest)

  function Render(n: Nest): string
  {
    match n
    case Empty => []
    case Group(k, inner, next) => [Open(k)] + Render(inner) + [Close(k)] + Render(next)
  }

  /** Reading a properly nested sequence leaves the stack as it was. */
  lemma {:induction false} ScanNested(n: Nest, rest: string, stack: seq<char>)
    ensures Scan(Render(n) + rest, stack) == Scan(rest, stack)
  {
    match n
    case Empty =>
      assert Render(n) + rest == rest;
    case Group(k, inner, next) =>
      var o, c := Open(k), Close(k);
      var t := [c] + (Render(next) + rest);
      assert Render(n) + rest == [o] + (Render(inner) + t);
      ScanOpen(o, Render(inner) + t, stack);
      ScanNested(inner, t, stack + [o]);
      ScanClose(k, Render(next) + rest, stack);
      ScanNested(next, rest, stack);
  }

  /** An opener is pushed. */
  lemma ScanOpen(o: char, x: string, stack: seq<char>)
    requires IsOpener(o)
    ensures Scan([o] + x, stack) == Scan(x, stack + [o])
  {
    assert ([o] + x)[0] == o && ([o] + x)[1..] == x;
  }

  /** A closer pops its own opener. */
  lemma ScanClose(k: Kind, y: string, stack: seq<char>)
    ensures Scan([Close(k)] + y, stack + [Open(k)]) == Scan(y, stack)
  {
    var c := Close(k);
    assert ([c] + y)[0] == c && ([c] + y)[1..] == y;
    assert (stack + [Open(k)])[..|stack|] == stack;
  }

  /** The closers of the stacked openers, top first, each followed by a
      properly nested sequence: what must follow a nested sequence for the
      stack to end empty. */
  function Closers(stack: seq<char>, ns: seq<Nest>): string
    requires OpenersOnly(stack) && |ns| == |stack|
    decreases |stack|
  {
    if stack == [] then []
    else
      [Close(KindOf(stack[|stack| - 1]))] + Render(ns[0])
      + Closers(stack[..|stack| - 1], ns[1..])
  }

  /** A bracket string that empties the given stack is a nested sequence
      followed by the closers of the stack. */
  lemma {:induction false} ScanEmptiesShape(s: string, stack: seq<char>)
    requires BracketsOnly(s)
    requires OpenersOnly(stack)
    requires Scan(s, stack) == Some([])
    ensures exists n0, ns :: |ns| == |stack| && Render(n0) + Closers(stack, ns) == s
  {
    if s == [] {
      assert Render(Empty) + Closers(stack, []) == s;
    } else if IsOpener(s[0]) {
      var st := stack + [s[0]];
      assert Scan(s[1..], st) == Some([]);
      ScanEmptiesShape(s[1..], st);
      var m0, ns' :| |ns'| == |st| && Render(m0) + Closers(st, ns') == s[1..];
      var g := ShapeAfterOpen(s, stack, m0, ns');
      assert Render(g) + Closers(stack, ns'[1..]) == s;
    } else {
      assert stack != [] && stack[|stack| - 1] == OpenerOf(s[0]);
      var st := stack[..|stack| - 1];
      assert Scan(s[1..], st) == Some([]);
      ScanEmptiesShape(s[1..], st);
      var m0, ns' :| |ns'| == |st| && Render(m0) + Closers(st, ns') == s[1..];
      ShapeAfterClose(s[0], s[1..], stack, m0, ns');
      assert s == [s[0]] + s[1..];
      assert Render(Empty) + Closers(stack, [m0] + ns') == s;
    }
  }

  /** An opener in front of a shape closes into one group. */
  lemma {:induction false} ShapeAfterOpen(s: string, stack: seq<char>, m0: Nest, ns': seq<Nest>) returns (g: Nest)
    requires s != [] && IsOpener(s[0]) && OpenersOnly(stack + [s[0]])
    requires |ns'| == |stack| + 1
    requires Render(m0) + Closers(stack + [s[0]], ns') == s[1..]
    ensures Render(g) + Closers(stack, ns'[1..]) == s
  {
    var st := stack + [s[0]];
    assert st[..|st| - 1] == stack;
    var k := KindOf(s[0]);
    var rest := Closers(stack, ns'[1..]);
    assert Closers(st, ns') == [Close(k)] + Render(ns'[0]) + rest;
    g := Group(k, m0, ns'[0]);
    assert s == [Open(k)] + s[1..];
    Regroup([Open(k)], Render(m0), [Close(k)], Render(ns'[0]), rest);
  }

  lemma Regroup<T>(a: seq<T>, b: seq<T>, c: seq<T>, d: seq<T>, e: seq<T>)
    ensures a + (b + (c + d + e)) == a + b + c + d + e
  {
  }

  /** A matching closer in front of a shape is the first of the stack's closers. */
  lemma {:induction false} ShapeAfterClose(c: char, t: string, stack: seq<char>, m0: Nest, ns': seq<Nest>)
    requires IsCloser(c) && OpenersOnly(stack)
    requires stack != [] && stack[|stack| - 1] == OpenerOf(c)
    requires |ns'| == |stack| - 1
    requires Render(m0) + Closers(stack[..|stack| - 1], ns') == t
    ensures Render(Empty) + Closers(stack, [m0] + ns') == [c] + t
  {
    var ns := [m0] + ns';
    assert ns[0] == m0 && ns[1..] == ns';
    CloseOfOpener(c);
    var rest := Closers(stack[..|stack| - 1], ns');
    assert Closers(stack, ns) == [c] + Render(m0) + rest;
    Associative([c], Render(m0), rest);
    assert Closers(stack, ns) == [c] + t;
    EmptyPrefix(Closers(stack, ns));
    assert Render(Empty) + Closers(stack, ns) == [c] + t;
  }

  lemma EmptyPrefix(x: string)
    ensures Render(Empty) + x == x
  {
    assert Render(Empty) == [];
  }

  /** A closer is the closing bracket of the kind of its own opener. */
  lemma CloseOfOpener(c: char)
    requires IsCloser(c)
    ensures Close(KindOf(OpenerOf(c))) == c
  {
  }

  lemma Associative<T>(a: seq<T>, b: seq<T>, c: seq<T>)
    ensures a + b + c == a + (b + c)
  {
  }

  /** The stack algorithm accepts exactly the strings whose bracket characters
      are properly nested. */
  lemma BalancedIffNested(expression: string)
    ensures Scan(expression, []) == Some([]) <==> exists n :: Render(n) == Brackets(expression)
  {
    ScanIgnoresOthers(expression, []);
    if Scan(expression, []) == Some([]) {
      ScanEmptiesShape(Brackets(expression), []);
      var n0, ns :| |ns| == 0 && Render(n0) + Closers([], ns) == Brackets(expression);
      assert Render(n0) == Brackets(expression);
    }
    if n :| Render(n) == Brackets(expression) {
      ScanNested(n, [], []);
      assert Render(n) + [] == Render(n);
    }
  }

  /** check_brackets_balance(expression): push every opener; a closer must
      meet its own opener on top of the stack, which it pops, or the answer is
      False at once; other characters are skipped; at the end the stack must
      be empty. */
  method CheckBracketsBalance(expression: string) returns (balanced: bool)
    ensures balanced <==> Scan(expression, []) == Some([])
    ensures balanced <==> exists n :: Render(n) == Brackets(expression)
  {
    var stack: seq<char> := [];
    for i := 0 to |expression|
      invariant Scan(expression, []) == Scan(expression[i..], stack)
      invariant OpenersOnly(stack)
    {
      var c := expression[i];
      assert expression[i..][0] == c && expression[i..][1..] == expression[i + 1..];
      if IsOpener(c) {
        stack := stack + [c];
      } else if IsCloser(c) {
        if stack == [] || stack[|stack| - 1] != OpenerOf(c) {
          BalancedIffNested(expression);
          return false;
        }
        stack := stack[..|stack| - 1];
      }
    }
    BalancedIffNested(expression);
    balanced := |stack| == 0;
  }

  /** Reading a + b is reading a, then reading b from the stack a left. */
  lemma {:induction false} ScanConcat(a: string, b: string, stack: seq<char>)
    ensures Scan(a + b, stack)
         == match Scan(a, stack) case None => None case Some(st) => Scan(b, st)
  {
    if a == [] {
      assert a + b == b;
    } else {
      assert (a + b)[0] == a[0] && (a + b)[1..] == a[1..] + b;
      if IsOpener(a[0]) {
        ScanConcat(a[1..], b, stack + [a[0]]);
      } else if IsCloser(a[0]) {
        if stack != [] && stack[|stack| - 1] == OpenerOf(a[0]) {
          ScanConcat(a[1..], b, stack[..|stack| - 1]);
        }
      } else {
        ScanConcat(a[1..], b, stack);
      }
    }
  }

  /** A closing bracket that meets an empty stack, or an opener of another
      kind, decides the answer: False, whatever follows. */
  lemma ClosingMismatchRejects(expression: string, i: nat, stack: seq<char>)
    requires i < |expression| && IsCloser(expression[i])
    requires Scan(expression[..i], []) == Some(stack)
    requires stack == [] || stack[|stack| - 1] != OpenerOf(expression[i])
    ensures Scan(expression, []) == None
  {
    assert expression == expression[..i] + expression[i..];
    ScanConcat(expression[..i], expression[i..], []);
  }

  /** The three balanced expressions of the demonstration are nested
      sequences, so the checker accepts them. */
  lemma BalancedDemos()
    ensures Scan("()", []) == Some([])
    ensures Scan("()[]{}", []) == Some([])
    ensures Scan("([{}])", []) == Some([])
  {
    var a := Group(Round, Empty, Empty);
    var b := Group(Round, Empty, Group(Square, Empty, Group(Curly, Empty, Empty)));
    var c := Group(Round, Group(Square, Group(Curly, Empty, Empty), Empty), Empty);
    assert Render(a) + [] == "()";
    assert Render(b) + [] == "()[]{}";
    assert Render(c) + [] == "([{}])";
    ScanNested(a, [], []);
    ScanNested(b, [], []);
    ScanNested(c, [], []);
  }

  /** The three unbalanced expressions of the demonstration: two meet a
      closer of the wrong kind, the last leaves two openers on the stack. */
  lemma UnbalancedDemos()
    ensures Scan("(]", []) == None
    ensures Scan("([)]", []) == None
    ensures Scan("((()", []) == Some(['(', '('])
  {
    assert [] + ['('] == ['('];
    assert Scan("]", ['(']) == None;
    assert Scan(")]", ['(', '[']) == None;
    assert ['(', '(', '('][..2] == ['(', '('];
    assert Scan(")", ['(', '(', '(']) == Some(['(', '(']);
    assert ['(', '('] + ['('] == ['(', '(', '('];
    assert Scan("()", ['(', '(']) == Some(['(', '(']);
    assert ['('] + ['('] == ['(', '('];
    assert Scan("(()", ['(']) == Some(['(', '(']);
  }

  // ---------------------------------------------------------------------
  // is_palindrome_deque
  // ---------------------------------------------------------------------

  function Reverse<T>(s: seq<T>): (r: seq<T>)
    ensures |r| == |s|
  {
    if s == [] then [] else Reverse(s[1..]) + [s[0]]
  }

  /** The k-th element of the reverse is the k-th from the end. */
  lemma {:induction false} ReverseIndex<T>(s: seq<T>, k: nat)
    requires k < |s|
    ensures Reverse(s)[k] == s[|s| - 1 - k]
  {
    if k < |s| - 1 {
      ReverseIndex(s[1..], k);
    }
  }

  /** A string equals its reverse iff each character equals its mirror. */
  lemma PalindromeIffMirrored<T>(s: seq<T>)
    ensures s == Reverse(s) <==> forall j :: 0 <= j < |s| ==> s[j] == s[|s| - 1 - j]
  {
    if s == Reverse(s) {
      forall j | 0 <= j < |s|
        ensures s[j] == s[|s| - 1 - j]
      {
        ReverseIndex(s, j);
      }
    }
    if forall j :: 0 <= j < |s| ==> s[j] == s[|s| - 1 - j] {
      forall j | 0 <= j < |s|
        ensures s[j] == Reverse(s)[j]
      {
        ReverseIndex(s, j);
      }
    }
  }

  /** A string of at most one character is a palindrome. */
  lemma ShortIsPalindrome<T>(s: seq<T>)
    requires |s| <= 1
    ensures s == Reverse(s)
  {
    PalindromeIffMirrored(s);
  }

  /** The cleaned text: the lower-cased form of every alphanumeric character,
      in order. Which characters are alphanumeric and what a character
      lower-cases to (possibly several characters) are Unicode tables, given
      as parameters. */
  function Clean(text: string, isAlnum: char -> bool, lower: char -> string): (cleaned: string)
    ensures (forall i :: 0 <= i < |text| ==> !isAlnum(text[i])) ==> cleaned == []
    ensures (forall c :: |lower(c)| == 1) ==> |cleaned| <= |text|
  {
    if text == [] then []
    else if isAlnum(text[0]) then lower(text[0]) + Clean(text[1..], isAlnum, lower)
    else Clean(text[1..], isAlnum, lower)
  }

  /** is_palindrome_deque(text): clean the text, put it in a deque, and while
      more than one character is left pop one from each end; two different
      characters give False. */
  method IsPalindromeDeque(text: string, isAlnum: char -> bool, lower: char -> string)
    returns (r: bool)
    ensures var cleaned := Clean(text, isAlnum, lower);
      r <==> cleaned == Reverse(cleaned)
  {
    var cleaned := Clean(text, isAlnum, lower);
    PalindromeIffMirrored(cleaned);
    var dq := cleaned;
    ghost var k := 0;
    while |dq| > 1
      invariant 0 <= k <= |cleaned| - k
      invariant dq == cleaned[k..|cleaned| - k]
      invariant forall j :: 0 <= j < k ==> cleaned[j] == cleaned[|cleaned| - 1 - j]
      decreases |dq|
    {
      var front := dq[0];
      var back := dq[|dq| - 1];
      InnerSlice(cleaned, k);
      dq := dq[1..|dq| - 1];
      if front != back {
        return false;
      }
      k := k + 1;
    }
    forall j | 0 <= j < |cleaned|
      ensures cleaned[j] == cleaned[|cleaned| - 1 - j]
    {
      if k <= j < |cleaned| - k {
        assert j == |cleaned| - 1 - j;
      } else if j >= |cleaned| - k {
        assert cleaned[|cleaned| - 1 - j] == cleaned[|cleaned| - 1 - (|cleaned| - 1 - j)];
      }
    }
    r := true;
  }

  /** Popping both ends of the middle part s[k..|s| - k] leaves the next
      middle part; the popped characters are s[k] and its mirror. */
  lemma InnerSlice<T>(s: seq<T>, k: nat)
    requires k + 1 < |s| - k
    ensures var m := s[k..|s| - k];
      m[0] == s[k] && m[|m| - 1] == s[|s| - 1 - k] && m[1..|m| - 1] == s[k + 1..|s| - (k + 1)]
  {
    var m := s[k..|s| - k];
    var inner, next := m[1..|m| - 1], s[k + 1..|s| - (k + 1)];
    assert |inner| == |next|;
    forall i | 0 <= i < |inner|
      ensures inner[i] == next[i]
    {
      assert inner[i] == m[i + 1] == s[k + 1 + i];
    }
  }

  /** ASCII letters and digits (the demonstration's texts also contain
      Cyrillic letters, which are covered by the two tables below). */
  predicate DemoIsAlnum(c: char)
  {
    ('a' <= c <= 'z') || ('A' <= c <= 'Z') || ('0' <= c <= '9')
    || ('\U{0410}' <= c <= '\U{044F}') || c == '\U{0401}' || c == '\U{0451}'
  }

  /** Lower-casing of ASCII and of the basic Cyrillic capitals. */
  function DemoLower(c: char): string
  {
    if 'A' <= c <= 'Z' then [(c as int + 32) as char]
    else if '\U{0410}' <= c <= '\U{042F}' then [(c as int + 32) as char]
    else if c == '\U{0401}' then ['\U{0451}']
    else [c]
  }

  /** A word after some separators: the first `lead` characters are not
      alphanumeric and vanish, and each later character is alphanumeric and
      lower-cases to the corresponding character of out. */
  lemma {:induction false} CleanWord(piece: string, lead: nat, out: string)
    requires lead <= |piece| && |piece| - lead == |out|
    requires forall i :: 0 <= i < lead ==> !DemoIsAlnum(piece[i])
    requires forall i :: lead <= i < |piece| ==>
      DemoIsAlnum(piece[i]) && DemoLower(piece[i]) == [out[i - lead]]
    ensures Clean(piece, DemoIsAlnum, DemoLower) == out
  {
    if lead > 0 {
      CleanWord(piece[1..], lead - 1, out);
    } else if piece != [] {
      CleanWord(piece[1..], 0, out[1..]);
      assert [out[0]] + out[1..] == out;
    }
  }

  /** "racecar" is its own reverse. */
  lemma RacecarDemo()
    ensures Clean("racecar", DemoIsAlnum, DemoLower) == "racecar"
    ensures "racecar" == Reverse("racecar")
  {
    CleanWord("racecar", 0, "racecar");
    RacecarPalindrome();
  }

  lemma RacecarPalindrome()
    ensures "racecar" == Reverse("racecar")
  {
    var s := "racecar";
    PalindromeIffMirrored(s);
    assert s[0] == s[6] && s[1] == s[5] && s[2] == s[4];
  }

  /** "Madam, I'm Adam" cleans to "madamimadam", its own reverse. */
  lemma MadamDemo()
    ensures Clean("Madam, I'm Adam", DemoIsAlnum, DemoLower) == "madamimadam"
    ensures "madamimadam" == Reverse("madamimadam")
  {
    MadamClean();
    MadamPalindrome();
  }

  lemma MadamPalindrome()
    ensures "madamimadam" == Reverse("madamimadam")
  {
    Mirrored11("madamimadam");
  }

  /** An 11-character string whose characters equal their mirrors. */
  lemma Mirrored11(s: string)
    requires |s| == 11
    requires s[0] == s[10] && s[1] == s[9] && s[2] == s[8] && s[3] == s[7] && s[4] == s[6]
    ensures s == Reverse(s)
  {
    PalindromeIffMirrored(s);
  }

  /** Cleaning distributes over concatenation. */
  lemma {:induction false} CleanConcat(a: string, b: string, isAlnum: char -> bool, lower: char -> string)
    ensures Clean(a + b, isAlnum, lower) == Clean(a, isAlnum, lower) + Clean(b, isAlnum, lower)
  {
    if a == [] {
      assert a + b == b;
    } else {
      assert (a + b)[0] == a[0] && (a + b)[1..] == a[1..] + b;
      CleanConcat(a[1..], b, isAlnum, lower);
    }
  }

  /** The demonstration texts are cleaned word by word. Each Word lemma
      unfolds Clean on one word, each Split and Join lemma regroups one
      literal, and CleanConcat glues the words together. Every literal fact
      is a lemma of its own, so that no proof unfolds more than one literal. */
  lemma MadamClean()
    ensures Clean("Madam, I'm Adam", DemoIsAlnum, DemoLower) == "madamimadam"
  {
    MadamSplit();
    CleanConcat("Madam", ", I" + ("'m" + " Adam"), DemoIsAlnum, DemoLower);
    CleanConcat(", I", "'m" + " Adam", DemoIsAlnum, DemoLower);
    CleanConcat("'m", " Adam", DemoIsAlnum, DemoLower);
    WordMadam();
    WordCommaI();
    WordApostropheM();
    WordAdam();
    MadamJoin();
  }

  lemma MadamSplit()
    ensures "Madam, I'm Adam" == "Madam" + (", I" + ("'m" + " Adam"))
  {
  }

  lemma WordMadam()
    ensures Clean("Madam", DemoIsAlnum, DemoLower) == "madam"
  {
    CleanWord("Madam", 0, "madam");
  }

  lemma WordCommaI()
    ensures Clean(", I", DemoIsAlnum, DemoLower) == "i"
  {
    CleanWord(", I", 2, "i");
  }

  lemma WordApostropheM()
    ensures Clean("'m", DemoIsAlnum, DemoLower) == "m"
  {
    CleanWord("'m", 1, "m");
  }

  lemma WordAdam()
    ensures Clean(" Adam", DemoIsAlnum, DemoLower) == "adam"
  {
    CleanWord(" Adam", 1, "adam");
  }

  lemma MadamJoin()
    ensures "madam" + ("i" + ("m" + "adam")) == "madamimadam"
  {
  }

  /** "А роза упала на лапу Азора" cleans to a Cyrillic palindrome. */
  lemma RozaDemo()
    ensures var cleaned := Clean("А роза упала на лапу Азора", DemoIsAlnum, DemoLower);
      cleaned == "арозаупаланалапуазора" && cleaned == Reverse(cleaned)
  {
    RozaClean();
    RozaPalindrome();
  }

  lemma RozaPalindrome()
    ensures "арозаупаланалапуазора" == Reverse("арозаупаланалапуазора")
  {
    Mirrored21("арозаупаланалапуазора");
  }

  /** A 21-character string whose characters equal their mirrors. */
  lemma Mirrored21(s: string)
    requires |s| == 21
    requires s[0] == s[20] && s[1] == s[19] && s[2] == s[18] && s[3] == s[17] && s[4] == s[16]
    requires s[5] == s[15] && s[6] == s[14] && s[7] == s[13] && s[8] == s[12] && s[9] == s[11]
    ensures s == Reverse(s)
  {
    PalindromeIffMirrored(s);
  }

  lemma RozaClean()
    ensures Clean("А роза упала на лапу Азора", DemoIsAlnum, DemoLower) == "арозаупаланалапуазора"
  {
    var a, b, c, d, e, f := "А", " роза", " упала", " на", " лапу", " Азора";
    RozaSplit();
    CleanConcat(a, b + (c + (d + (e + f))), DemoIsAlnum, DemoLower);
    CleanConcat(b, c + (d + (e + f)), DemoIsAlnum, DemoLower);
    CleanConcat(c, d + (e + f), DemoIsAlnum, DemoLower);
    CleanConcat(d, e + f, DemoIsAlnum, DemoLower);
    CleanConcat(e, f, DemoIsAlnum, DemoLower);
    WordA();
    WordRoza();
    WordUpala();
    WordNa();
    WordLapu();
    WordAzora();
    RozaJoin();
  }

  lemma RozaSplit()
    ensures "А роза упала на лапу Азора" == "А" + (" роза" + (" упала" + (" на" + (" лапу" + " Азора"))))
  {
    assert " на лапу Азора" == " на" + (" лапу" + " Азора");
    assert "А роза" == "А" + " роза";
  }

  lemma WordA()
    ensures Clean("А", DemoIsAlnum, DemoLower) == "а"
  {
    CleanWord("А", 0, "а");
  }

  lemma WordRoza()
    ensures Clean(" роза", DemoIsAlnum, DemoLower) == "роза"
  {
    CleanWord(" роза", 1, "роза");
  }

  lemma WordUpala()
    ensures Clean(" упала", DemoIsAlnum, DemoLower) == "упала"
  {
    CleanWord(" упала", 1, "упала");
  }

  lemma WordNa()
    ensures Clean(" на", DemoIsAlnum, DemoLower) == "на"
  {
    CleanWord(" на", 1, "на");
  }

  lemma WordLapu()
    ensures Clean(" лапу", DemoIsAlnum, DemoLower) == "лапу"
  {
    CleanWord(" лапу", 1, "лапу");
  }

  lemma WordAzora()
    ensures Clean(" Азора", DemoIsAlnum, DemoLower) == "азора"
  {
    CleanWord(" Азора", 1, "азора");
  }

  lemma RozaJoin()
    ensures "а" + ("роза" + ("упала" + ("на" + ("лапу" + "азора")))) == "арозаупаланалапуазора"
  {
    assert "на" + ("лапу" + "азора") == "налапуазора";
  }

  /** "hello" is not its own reverse. */
  lemma HelloDemo()
    ensures Clean("hello", DemoIsAlnum, DemoLower) == "hello"
    ensures "hello" != Reverse("hello")
  {
    CleanWord("hello", 0, "hello");
    FirstDiffersFromLast("hello");
  }

  /** "not a palindrome" cleans to a string that starts with 'n' and ends
      with 'e', so it is not its own reverse. */
  lemma NotAPalindromeDemo()
    ensures var cleaned := Clean("not a palindrome", DemoIsAlnum, DemoLower);
      cleaned == "notapalindrome" && cleaned != Reverse(cleaned)
  {
    NotAPalindromeClean();
    FirstDiffersFromLast("notapalindrome");
  }

  lemma NotAPalindromeClean()
    ensures Clean("not a palindrome", DemoIsAlnum, DemoLower) == "notapalindrome"
  {
    NotAPalindromeSplit();
    CleanConcat("not", " a" + " palindrome", DemoIsAlnum, DemoLower);
    CleanConcat(" a", " palindrome", DemoIsAlnum, DemoLower);
    WordNot();
    WordSpaceA();
    WordPalindrome();
    NotAPalindromeJoin();
  }

  lemma NotAPalindromeSplit()
    ensures "not a palindrome" == "not" + (" a" + " palindrome")
  {
  }

  lemma WordNot()
    ensures Clean("not", DemoIsAlnum, DemoLower) == "not"
  {
    CleanWord("not", 0, "not");
  }

  lemma WordSpaceA()
    ensures Clean(" a", DemoIsAlnum, DemoLower) == "a"
  {
    CleanWord(" a", 1, "a");
  }

  lemma WordPalindrome()
    ensures Clean(" palindrome", DemoIsAlnum, DemoLower) == "palindrome"
  {
    CleanWord(" palindrome", 1, "palindrome");
  }

  lemma NotAPalindromeJoin()
    ensures "not" + ("a" + "palindrome") == "notapalindrome"
  {
  }

  /** A string whose first and last characters differ is no palindrome. */
  lemma FirstDiffersFromLast<T>(s: seq<T>)
    requires |s| >= 1 && s[0] != s[|s| - 1]
    ensures s != Reverse(s)
  {
    ReverseIndex(s, 0);
  }

  // ---------------------------------------------------------------------
  // PrintQueue
  // ---------------------------------------------------------------------

  /** A print queue: tasks leave in the order they arrived. */
  class PrintQueue<T> {
    /** The waiting tasks, oldest first. */
    var queue: seq<T>

    constructor()
      ensures queue == []
    {
      queue := [];
    }

    /** enqueue(task): the task goes to the back. */
    method Enqueue(task: T)
      modifies this
      ensures queue == old(queue) + [task]
    {
      queue := queue + [task];
    }

    /** dequeue(): the oldest task, or None and no change when there is none. */
    method Dequeue() returns (task: Option<T>)
      modifies this
      ensures old(queue) == [] ==> task == None && queue == []
      ensures old(queue) != [] ==> task == Some(old(queue)[0]) && queue == old(queue)[1..]
    {
      if |queue| > 0 {
        task := Some(queue[0]);
        queue := queue[1..];
      } else {
        task := None;
      }
    }

    /** process_queue(): dequeues until the queue is empty; the tasks it
        prints, in order, are returned. */
    method ProcessQueue() returns (printed: seq<T>)
      modifies this
      ensures printed == old(queue)
      ensures IsEmpty()
    {
      printed := [];
      while !IsEmpty()
        invariant printed + queue == old(queue)
        decreases |queue|
      {
        var task := Dequeue();
        printed := printed + [task.value];
      }
      assert printed + [] == printed;
    }

    /** is_empty(): whether no task is waiting. */
    predicate IsEmpty()
      reads this
      ensures IsEmpty() <==> |queue| == 0
    {
      |queue| == 0
    }
  }

  /** The simulation: the tasks enqueued one after another are printed by
      process_queue in the same order, and a further dequeue gives None. */
  method PrintQueueDemo<T>(tasks: seq<T>) returns (printed: seq<T>, after: Option<T>)
    ensures printed == tasks
    ensures after == None
  {
    var q := new PrintQueue<T>();
    for i := 0 to |tasks|
      invariant q.queue == tasks[..i]
    {
      q.Enqueue(tasks[i]);
      assert tasks[..i + 1] == tasks[..i] + [tasks[i]];
    }
    assert tasks[..|tasks|] == tasks;
    printed := q.ProcessQueue();
    after := q.Dequeue();
  }
}
