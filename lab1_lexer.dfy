/**
 * The first lexer: one pass over the sentence, character by character,
 * growing a current token and flushing it into the query whenever a
 * character cannot extend it.  Plus/minus and times/divide are merged
 * operator kinds here, and a stack of open brackets decides whether a
 * closing bracket closes a function call.
 */
module Lab1Lexer {
  import opened Wrappers

  /** The eleven token kinds of the first lexer. */
  datatype Lab1TokenType =
    | Integer | Decimal | Constant | Function
    | FunctionOpenBracket | FunctionCloseBracket | OpenBracket | CloseBracket
    | OperationAddOrMinus | OperationMultiplyOrDivide | Error

  /** A finished token: inclusive character positions, kind and text. */
  datatype Lab1Token = Lab1Token(startPosition: int, endPosition: int, tokenType: Lab1TokenType, value: string)

  /** The one way the lexer refuses a sentence. */
  datatype LexError = SentenceIsEmpty

  /** The token being built: where it starts, its kind once known (`None` while
    * nothing has been read into it) and its text so far. */
  datatype Pending = Pending(start: int, kind: Option<Lab1TokenType>, value: string)

  /** Everything the loop carries from one character to the next. */
  datatype LexState = LexState(current: Pending, query: seq<Lab1Token>, openedBrackets: seq<Lab1TokenType>)

  predicate IsDigit(c: char) { '0' <= c <= '9' }

  predicate IsLetter(c: char) { 'a' <= c <= 'z' || 'A' <= c <= 'Z' }

  /** The characters Java counts as white space: the space, line and
    * paragraph separators other than the non-breaking ones (U+00A0, U+2007,
    * U+202F), and the controls from tab to carriage return and U+001C to U+001F. */
  predicate IsWhitespace(c: char)
  {
    || c == ' ' || '\t' <= c <= '\r' || '\U{1C}' <= c <= '\U{1F}'
    || c == '\U{1680}' || '\U{2000}' <= c <= '\U{2006}' || '\U{2008}' <= c <= '\U{200A}'
    || c == '\U{2028}' || c == '\U{2029}' || c == '\U{205F}' || c == '\U{3000}'
  }

  predicate IsBlank(s: string) { forall i :: 0 <= i < |s| ==> IsWhitespace(s[i]) }

  /** Closes the current token at position `i` and starts an empty one after it. */
  function FinishProcessing(current: Pending, i: int, query: seq<Lab1Token>): (r: (Pending, seq<Lab1Token>))
    requires current.kind.Some?
    ensures r.1 == query + [Lab1Token(current.start, i, current.kind.value, current.value)]
    ensures r.0 == Pending(i + 1, None, [])
  {
    (Pending(i + 1, None, []), query + [Lab1Token(current.start, i, current.kind.value, current.value)])
  }

  /** Flushes the current token (if it has a kind) up to `i - 1`, then emits the
    * one-character token `c` of kind `kind` at position `i`. */
  function AddAndFinishAnother(current: Pending, i: int, query: seq<Lab1Token>, kind: Lab1TokenType, c: char): (r: (Pending, seq<Lab1Token>))
    ensures r.0 == Pending(i + 1, None, [])
    ensures current.kind.None? ==> r.1 == query + [Lab1Token(current.start, i, kind, current.value + [c])]
    ensures current.kind.Some? ==>
      r.1 == query + [Lab1Token(current.start, i - 1, current.kind.value, current.value)] + [Lab1Token(i, i, kind, [c])]
  {
    if current.kind.Some? then
      var flushed := FinishProcessing(current, i - 1, query);
      var another := flushed.0;
      assert another.value + [c] == [c];
      FinishProcessing(Pending(another.start, Some(kind), another.value + [c]), i, flushed.1)
    else
      FinishProcessing(Pending(current.start, Some(kind), current.value + [c]), i, query)
  }

  /** Reading a character that is a token on its own, of kind `kind`; the
    * open brackets are left as they are. */
  function Emit(st: LexState, c: char, i: int, kind: Lab1TokenType): LexState
  {
    var r := AddAndFinishAnother(st.current, i, st.query, kind, c);
    LexState(r.0, r.1, st.openedBrackets)
  }

  /** Reading a bracket: an opening bracket right after a name turns the name
    * into a function; a closing bracket pops the innermost open bracket. */
  function ReadBracket(st: LexState, c: char, i: int): LexState
  {
    var cur := st.current;
    var stack := st.openedBrackets;
    if c == '(' then
      if cur.kind == Some(Constant) then
        var r := AddAndFinishAnother(cur.(kind := Some(Function)), i, st.query, FunctionOpenBracket, c);
        LexState(r.0, r.1, stack + [FunctionOpenBracket])
      else
        var r := AddAndFinishAnother(cur, i, st.query, OpenBracket, c);
        LexState(r.0, r.1, stack + [OpenBracket])
    else if stack == [] then
      Emit(st, c, i, CloseBracket)
    else
      var kind := if stack[|stack| - 1] == FunctionOpenBracket then FunctionCloseBracket else CloseBracket;
      var r := AddAndFinishAnother(cur, i, st.query, kind, c);
      LexState(r.0, r.1, stack[..|stack| - 1])
  }

  /** Reading a dot: it turns an integer into a decimal and extends a decimal
    * or a function name; anywhere else it is an error. */
  function ReadDot(st: LexState, c: char, i: int): LexState
  {
    var cur := st.current;
    if cur.kind == Some(Integer) then
      st.(current := Pending(cur.start, Some(Decimal), cur.value + [c]))
    else if cur.kind == Some(Decimal) || cur.kind == Some(Function) then
      st.(current := cur.(value := cur.value + [c]))
    else
      Emit(st, c, i, Error)
  }

  /** Reading a digit: it starts an integer or extends a number or a function
    * name; after a name it is an error. */
  function ReadDigit(st: LexState, c: char, i: int): LexState
  {
    var cur := st.current;
    if cur.kind.None? then
      st.(current := Pending(cur.start, Some(Integer), cur.value + [c]))
    else if cur.kind == Some(Integer) || cur.kind == Some(Decimal) || cur.kind == Some(Function) then
      st.(current := cur.(value := cur.value + [c]))
    else
      Emit(st, c, i, Error)
  }

  /** Reading a letter: it starts a name or extends one; after a number it is an error. */
  function ReadLetter(st: LexState, c: char, i: int): LexState
  {
    var cur := st.current;
    if cur.kind.None? then
      st.(current := Pending(cur.start, Some(Constant), cur.value + [c]))
    else if cur.kind == Some(Constant) || cur.kind == Some(Function) then
      st.(current := cur.(value := cur.value + [c]))
    else
      Emit(st, c, i, Error)
  }

  /** What reading character `c` at position `i` does to the state. */
  function Step(st: LexState, c: char, i: int): LexState
  {
    if c == '(' || c == ')' then ReadBracket(st, c, i)
    else if c == '+' || c == '-' then Emit(st, c, i, OperationAddOrMinus)
    else if c == '*' || c == '/' then Emit(st, c, i, OperationMultiplyOrDivide)
    else if c == '.' then ReadDot(st, c, i)
    else if IsDigit(c) then ReadDigit(st, c, i)
    else if IsLetter(c) then ReadLetter(st, c, i)
    else Emit(st, c, i, Error)
  }

  /** The state the loop starts in. */
  const Start := LexState(Pending(0, None, []), [], [])

  /** The state after reading the characters from position `i` on, in state `st`. */
  function RunFrom(text: string, i: nat, st: LexState): LexState
    decreases |text| - i
  {
    if i >= |text| then st else RunFrom(text, i + 1, Step(st, text[i], i))
  }

  /** The whole lexer: a blank sentence is refused, otherwise the last
    * unfinished token is flushed after the loop. */
  function Lex(text: string): (r: Result<seq<Lab1Token>, LexError>)
  {
    if IsBlank(text) then Failure(SentenceIsEmpty)
    else
      var st := RunFrom(text, 0, Start);
      if st.current.kind.Some? then Success(FinishProcessing(st.current, |text| - 1, st.query).1)
      else Success(st.query)
  }

  /** `processMathSentence`, proved to compute `Lex`. */
  method ProcessMathSentence(sentence: string) returns (r: Result<seq<Lab1Token>, LexError>)
    ensures r == Lex(sentence)
  {
    if IsBlank(sentence) {
      return Failure(SentenceIsEmpty);
    }
    var currentToken := Pending(0, None, []);
    var query: seq<Lab1Token> := [];
    var openedBrackets: seq<Lab1TokenType> := [];
    for i := 0 to |sentence|
      invariant RunFrom(sentence, i, LexState(currentToken, query, openedBrackets)) == RunFrom(sentence, 0, Start)
    {
      var c := sentence[i];
      var flushed: (Pending, seq<Lab1Token>);
      if c == '(' {
        if currentToken.kind == Some(Constant) {
          currentToken := currentToken.(kind := Some(Function));
          openedBrackets := openedBrackets + [FunctionOpenBracket];
          flushed := AddAndFinishAnother(currentToken, i, query, FunctionOpenBracket, c);
        } else {
          openedBrackets := openedBrackets + [OpenBracket];
          flushed := AddAndFinishAnother(currentToken, i, query, OpenBracket, c);
        }
        currentToken, query := flushed.0, flushed.1;
      } else if c == ')' {
        var kind := CloseBracket;
        if openedBrackets != [] {
          if openedBrackets[|openedBrackets| - 1] == FunctionOpenBracket {
            kind := FunctionCloseBracket;
          }
          openedBrackets := openedBrackets[..|openedBrackets| - 1];
        }
        flushed := AddAndFinishAnother(currentToken, i, query, kind, c);
        currentToken, query := flushed.0, flushed.1;
      } else if c == '+' || c == '-' {
        flushed := AddAndFinishAnother(currentToken, i, query, OperationAddOrMinus, c);
        currentToken, query := flushed.0, flushed.1;
      } else if c == '*' || c == '/' {
        flushed := AddAndFinishAnother(currentToken, i, query, OperationMultiplyOrDivide, c);
        currentToken, query := flushed.0, flushed.1;
      } else if c == '.' {
        if currentToken.kind == Some(Integer) {
          currentToken := Pending(currentToken.start, Some(Decimal), currentToken.value + [c]);
        } else if currentToken.kind == Some(Decimal) || currentToken.kind == Some(Function) {
          currentToken := currentToken.(value := currentToken.value + [c]);
        } else {
          flushed := AddAndFinishAnother(currentToken, i, query, Error, c);
          currentToken, query := flushed.0, flushed.1;
        }
      } else if IsDigit(c) {
        if currentToken.kind.None? {
          currentToken := Pending(currentToken.start, Some(Integer), currentToken.value + [c]);
        } else if currentToken.kind == Some(Integer) || currentToken.kind == Some(Decimal) || currentToken.kind == Some(Function) {
          currentToken := currentToken.(value := currentToken.value + [c]);
        } else {
          flushed := AddAndFinishAnother(currentToken, i, query, Error, c);
          currentToken, query := flushed.0, flushed.1;
        }
      } else if IsLetter(c) {
        if currentToken.kind.None? {
          currentToken := Pending(currentToken.start, Some(Constant), currentToken.value + [c]);
        } else if currentToken.kind == Some(Constant) || currentToken.kind == Some(Function) {
          currentToken := currentToken.(value := currentToken.value + [c]);
        } else {
          flushed := AddAndFinishAnother(currentToken, i, query, Error, c);
          currentToken, query := flushed.0, flushed.1;
        }
      } else {
        flushed := AddAndFinishAnother(currentToken, i, query, Error, c);
        currentToken, query := flushed.0, flushed.1;
      }
    }
    if currentToken.kind.Some? {
      var finished := FinishProcessing(currentToken, |sentence| - 1, query);
      query := finished.1;
    }
    return Success(query);
  }

  // ---------------------------------------------------------------------
  // What the produced token query looks like

  /** The texts of the tokens, joined in order. */
  function Concat(toks: seq<Lab1Token>): string
  {
    if toks == [] then [] else Concat(toks[..|toks| - 1]) + toks[|toks| - 1].value
  }

  /** Kinds whose tokens are exactly one character long. */
  predicate OneChar(k: Lab1TokenType)
  {
    !(k == Integer || k == Decimal || k == Constant || k == Function)
  }

  /** Kinds a token can have while characters are still being added to it. */
  predicate Growing(k: Lab1TokenType)
  {
    k == Integer || k == Decimal || k == Constant
  }

  /** The characters that are always a token on their own. */
  predicate IsSymbol(c: char)
  {
    c == '(' || c == ')' || c == '+' || c == '-' || c == '*' || c == '/'
  }

  /** The text a token of each kind can carry: a bracket or a sign is that one
    * character, an error token one character that is not a bracket or a sign,
    * a number digits (a decimal starting with a digit and holding a dot), a
    * name letters. */
  predicate Shaped(kind: Lab1TokenType, v: string)
  {
    if OneChar(kind) then |v| == 1 && SymbolFits(kind, v[0])
    else
      && |v| >= 1
      && (forall j :: 0 <= j < |v| ==> CharFits(kind, v[j]))
      && (kind == Decimal ==> IsDigit(v[0]) && '.' in v)
  }

  /** The one character of a token of a one-character kind. */
  predicate SymbolFits(kind: Lab1TokenType, c: char)
  {
    && (kind == OpenBracket || kind == FunctionOpenBracket ==> c == '(')
    && (kind == CloseBracket || kind == FunctionCloseBracket ==> c == ')')
    && (kind == OperationAddOrMinus ==> c == '+' || c == '-')
    && (kind == OperationMultiplyOrDivide ==> c == '*' || c == '/')
    && (kind == Error ==> !IsSymbol(c))
  }

  /** The characters a number or a name is made of. */
  predicate CharFits(kind: Lab1TokenType, c: char)
  {
    if kind == Integer then IsDigit(c)
    else if kind == Decimal then IsDigit(c) || c == '.'
    else IsLetter(c)
  }

  /** What may follow token `p` directly: the token boundary between them was
    * forced, a function name is always followed by its bracket and only by it,
    * and a stray dot is an error.  A digit is an error token exactly when it
    * comes right after a name, and a letter exactly when it comes right after
    * a number; anywhere else a digit starts a number and a letter a name. */
  predicate Follows(p: Lab1Token, q: Lab1Token)
  {
    && |q.value| >= 1
    && (q.value[0] == '.' ==> q.tokenType == Error)
    && ((p.tokenType == Integer || p.tokenType == Decimal) ==>
          !IsDigit(q.value[0]) && q.value[0] != '.' && (IsLetter(q.value[0]) ==> q.tokenType == Error))
    && (p.tokenType == Constant ==>
          !IsLetter(q.value[0]) && q.value[0] != '(' && (IsDigit(q.value[0]) ==> q.tokenType == Error))
    && (IsDigit(q.value[0]) && q.tokenType == Error ==> p.tokenType == Constant)
    && (IsLetter(q.value[0]) && q.tokenType == Error ==> p.tokenType == Integer || p.tokenType == Decimal)
    && (p.tokenType == Function <==> q.tokenType == FunctionOpenBracket)
  }

  /** What the first token may be: neither a function's opening bracket nor
    * a digit or a letter taken as an error. */
  predicate MayStart(t: Lab1Token)
  {
    && t.tokenType != FunctionOpenBracket
    && (t.tokenType == Error && |t.value| >= 1 ==> !IsDigit(t.value[0]) && !IsLetter(t.value[0]))
  }

  /** The open-bracket stack after one more token of kind `k`. */
  function StackAfter(s: seq<Lab1TokenType>, k: Lab1TokenType): seq<Lab1TokenType>
  {
    if k == OpenBracket || k == FunctionOpenBracket then s + [k]
    else if (k == CloseBracket || k == FunctionCloseBracket) && s != [] then s[..|s| - 1]
    else s
  }

  /** A closing bracket is a function's closing bracket exactly when the
    * innermost bracket still open, `s[|s| - 1]`, is a function's opening bracket. */
  predicate CloserFits(s: seq<Lab1TokenType>, k: Lab1TokenType)
  {
    k == CloseBracket || k == FunctionCloseBracket ==>
      (k == FunctionCloseBracket <==> s != [] && s[|s| - 1] == FunctionOpenBracket)
  }

  /** The brackets left open after a token prefix, innermost last. */
  function OpenStack(toks: seq<Lab1Token>): seq<Lab1TokenType>
  {
    if toks == [] then []
    else StackAfter(OpenStack(toks[..|toks| - 1]), toks[|toks| - 1].tokenType)
  }

  /** A token `t` that may come right after the tokens `before`: its text is as
    * long as its span, has the shape of its kind, may follow the last of `before`
    * and, if it closes a bracket, fits the brackets `before` leaves open. */
  predicate NextToken(text: string, before: seq<Lab1Token>, t: Lab1Token)
  {
    && 0 <= t.startPosition <= t.endPosition < |text|
    && |t.value| == t.endPosition + 1 - t.startPosition
    && Shaped(t.tokenType, t.value)
    && (before == [] ==> MayStart(t))
    && (before != [] ==> Follows(before[|before| - 1], t))
    && CloserFits(OpenStack(before), t.tokenType)
  }

  /** The tokens span `text[..upTo]` one after another, each a `NextToken` of those before it. */
  predicate Lexed(text: string, toks: seq<Lab1Token>, upTo: int)
  {
    if toks == [] then upTo == 0
    else
      var before := toks[..|toks| - 1];
      var t := toks[|toks| - 1];
      && t.endPosition + 1 == upTo
      && Lexed(text, before, t.startPosition)
      && NextToken(text, before, t)
  }

  /** What the current, unfinished token looks like after `i` characters. */
  predicate PendingOK(text: string, i: int, cur: Pending)
  {
    && 0 <= cur.start <= i <= |text|
    && |cur.value| == i - cur.start
    && (cur.kind.None? <==> cur.start == i)
    && (cur.kind.Some? ==> Growing(cur.kind.value) && Shaped(cur.kind.value, cur.value))
  }

  /** The loop invariant of the lexer after `i` characters: the query and the
    * current token together hold the text read so far, and the query always
    * ends in a one-character token.  The lemmas below state it as
    * `Inv(...) == true`, so that each use is one fact to the verifier rather
    * than its conjuncts one by one. */
  predicate Inv(text: string, i: int, st: LexState)
  {
    match st
    case LexState(current, q, openedBrackets) =>
      && PendingOK(text, i, current)
      && Lexed(text, q, current.start)
      && Concat(q) + current.value == text[..i]
      && openedBrackets == OpenStack(q)
      && (q != [] ==> OneChar(q[|q| - 1].tokenType))
  }

  lemma AppendLexed(text: string, toks: seq<Lab1Token>, t: Lab1Token)
    requires Lexed(text, toks, t.startPosition) && NextToken(text, toks, t)
    ensures Lexed(text, toks + [t], t.endPosition + 1)
    ensures OpenStack(toks + [t]) == StackAfter(OpenStack(toks), t.tokenType)
    ensures Concat(toks + [t]) == Concat(toks) + t.value
  {
    assert (toks + [t])[..|toks|] == toks;
  }

  /** A number or a name may follow any one-character token. */
  lemma MultiCharFollowsOneChar(p: Lab1Token, t: Lab1Token)
    requires OneChar(p.tokenType)
    requires !OneChar(t.tokenType) && Shaped(t.tokenType, t.value)
    ensures Follows(p, t)
  {
    assert IsDigit(t.value[0]) || IsLetter(t.value[0]);
  }

  /** Finishing the pending token `cur` at `i - 1` extends the query. */
  lemma FinishKeepsLexed(text: string, i: int, cur: Pending, q: seq<Lab1Token>)
    requires 0 <= cur.start < i <= |text|
    requires |cur.value| == i - cur.start
    requires Lexed(text, q, cur.start)
    requires cur.kind.Some? && !OneChar(cur.kind.value)
    requires Shaped(cur.kind.value, cur.value)
    requires q != [] ==> OneChar(q[|q| - 1].tokenType)
    ensures var q' := q + [Lab1Token(cur.start, i - 1, cur.kind.value, cur.value)];
      Lexed(text, q', i) && OpenStack(q') == OpenStack(q) && Concat(q') == Concat(q) + cur.value
  {
    var ftok := Lab1Token(cur.start, i - 1, cur.kind.value, cur.value);
    if q != [] {
      MultiCharFollowsOneChar(q[|q| - 1], ftok);
    }
    AppendLexed(text, q, ftok);
  }

  /** Emitting the one-character token `text[i]` when nothing is pending. */
  lemma EmitKeepsLexed(text: string, i: int, q: seq<Lab1Token>, kind: Lab1TokenType)
    requires 0 <= i < |text|
    requires Lexed(text, q, i)
    requires Shaped(kind, [text[i]])
    requires q == [] ==> MayStart(Lab1Token(i, i, kind, [text[i]]))
    requires q != [] ==> Follows(q[|q| - 1], Lab1Token(i, i, kind, [text[i]]))
    requires CloserFits(OpenStack(q), kind)
    ensures var q' := q + [Lab1Token(i, i, kind, [text[i]])];
      && Lexed(text, q', i + 1)
      && OpenStack(q') == StackAfter(OpenStack(q), kind)
      && Concat(q') == Concat(q) + [text[i]]
  {
    AppendLexed(text, q, Lab1Token(i, i, kind, [text[i]]));
  }

  /** The text read so far grows by the character at `i`. */
  lemma GrowConcat(text: string, i: int, done: string, pending: string)
    requires 0 <= i < |text| && done + pending == text[..i]
    ensures done + (pending + [text[i]]) == text[..i + 1]
    ensures (done + pending) + [text[i]] + [] == text[..i + 1]
  {
    assert text[..i + 1] == text[..i] + [text[i]];
    assert done + (pending + [text[i]]) == (done + pending) + [text[i]];
  }

  /** `Inv` from its parts. */
  lemma InvIntro(text: string, i: int, st: LexState)
    requires PendingOK(text, i, st.current)
    requires Lexed(text, st.query, st.current.start)
    requires Concat(st.query) + st.current.value == text[..i]
    requires st.openedBrackets == OpenStack(st.query)
    requires st.query != [] ==> OneChar(st.query[|st.query| - 1].tokenType)
    ensures Inv(text, i, st) == true
  {
  }

  /** Finishing the pending token `cur` at `i - 1` and emitting the
    * one-character token `text[i]` extends the query. */
  lemma FlushEmitKeepsLexed(text: string, i: int, cur: Pending, q: seq<Lab1Token>, kind: Lab1TokenType)
    requires 0 <= cur.start < i < |text|
    requires |cur.value| == i - cur.start
    requires Lexed(text, q, cur.start)
    requires cur.kind.Some? && !OneChar(cur.kind.value)
    requires Shaped(cur.kind.value, cur.value)
    requires q != [] ==> OneChar(q[|q| - 1].tokenType)
    requires Shaped(kind, [text[i]])
    requires Follows(Lab1Token(cur.start, i - 1, cur.kind.value, cur.value), Lab1Token(i, i, kind, [text[i]]))
    requires CloserFits(OpenStack(q), kind)
    ensures var q' := q + [Lab1Token(cur.start, i - 1, cur.kind.value, cur.value)] + [Lab1Token(i, i, kind, [text[i]])];
      && Lexed(text, q', i + 1)
      && OpenStack(q') == StackAfter(OpenStack(q), kind)
      && Concat(q') == Concat(q) + cur.value + [text[i]]
  {
    var ftok := Lab1Token(cur.start, i - 1, cur.kind.value, cur.value);
    FinishKeepsLexed(text, i, cur, q);
    EmitKeepsLexed(text, i, q + [ftok], kind);
  }

  /** Emitting a one-character token when nothing is pending keeps the invariant. */
  lemma EmitFreshKeepsInv(text: string, i: int, st: LexState, kind: Lab1TokenType, st': LexState)
    requires Inv(text, i, st) == true && i < |text| && st.current.kind.None?
    requires OneChar(kind) && kind != FunctionOpenBracket && Shaped(kind, [text[i]])
    requires kind == Error ==> !IsDigit(text[i]) && !IsLetter(text[i])
    requires st.query != [] ==> Follows(st.query[|st.query| - 1], Lab1Token(i, i, kind, [text[i]]))
    requires CloserFits(st.openedBrackets, kind)
    requires st' == LexState(Pending(i + 1, None, []),
                             st.query + [Lab1Token(i, i, kind, [text[i]])],
                             StackAfter(st.openedBrackets, kind))
    ensures Inv(text, i + 1, st') == true
  {
    EmitKeepsLexed(text, i, st.query, kind);
    assert st.current.value == [];
    GrowConcat(text, i, Concat(st.query), st.current.value);
    InvIntro(text, i + 1, st');
  }

  /** Finishing the pending token `cur` (the current token, perhaps retagged as
    * a function) and emitting a one-character token keeps the invariant. */
  lemma EmitFlushKeepsInv(text: string, i: int, st: LexState, cur: Pending, kind: Lab1TokenType, st': LexState)
    requires Inv(text, i, st) == true && i < |text| && st.current.kind.Some?
    requires cur.start == st.current.start && cur.value == st.current.value && cur.kind.Some?
    requires cur.kind == st.current.kind || (st.current.kind == Some(Constant) && cur.kind == Some(Function))
    requires OneChar(kind) && Shaped(kind, [text[i]])
    requires Follows(Lab1Token(cur.start, i - 1, cur.kind.value, cur.value), Lab1Token(i, i, kind, [text[i]]))
    requires CloserFits(st.openedBrackets, kind)
    requires st' == LexState(Pending(i + 1, None, []),
                             st.query + [Lab1Token(cur.start, i - 1, cur.kind.value, cur.value)]
                                      + [Lab1Token(i, i, kind, [text[i]])],
                             StackAfter(st.openedBrackets, kind))
    ensures Inv(text, i + 1, st') == true
  {
    if cur.kind != st.current.kind {
      NameAsFunction(cur.value);
    }
    FlushEmitKeepsLexed(text, i, cur, st.query, kind);
    GrowConcat(text, i, Concat(st.query), cur.value);
    InvIntro(text, i + 1, st');
  }

  /** Reading a character that becomes a one-character token of kind `kind`,
    * with `cur` the current token as retagged just before. */
  lemma EmitStepKeepsInv(text: string, i: int, st: LexState, cur: Pending, kind: Lab1TokenType, st': LexState)
    requires Inv(text, i, st) == true && i < |text|
    requires cur.start == st.current.start && cur.value == st.current.value
    requires cur.kind.Some? <==> st.current.kind.Some?
    requires cur.kind.Some? ==> cur.kind == st.current.kind || (st.current.kind == Some(Constant) && cur.kind == Some(Function))
    requires OneChar(kind) && Shaped(kind, [text[i]])
    requires cur.kind.None? && st.query != [] ==> Follows(st.query[|st.query| - 1], Lab1Token(i, i, kind, [text[i]]))
    requires cur.kind.Some? ==> Follows(Lab1Token(cur.start, i - 1, cur.kind.value, cur.value), Lab1Token(i, i, kind, [text[i]]))
    requires kind == FunctionOpenBracket ==> cur.kind == Some(Function)
    requires kind == Error && cur.kind.None? ==> !IsDigit(text[i]) && !IsLetter(text[i])
    requires CloserFits(st.openedBrackets, kind)
    requires st' == LexState(Pending(i + 1, None, []),
                             AddAndFinishAnother(cur, i, st.query, kind, text[i]).1,
                             StackAfter(st.openedBrackets, kind))
    ensures Inv(text, i + 1, st') == true
  {
    if cur.kind.Some? {
      EmitFlushKeepsInv(text, i, st, cur, kind, st');
    } else {
      assert cur.value + [text[i]] == [text[i]];
      EmitFreshKeepsInv(text, i, st, kind, st');
    }
  }

  /** Reading a character that extends the current token keeps the invariant. */
  lemma ExtendKeepsInv(text: string, i: int, st: LexState, st': LexState)
    requires Inv(text, i, st) == true && i < |text|
    requires st'.query == st.query && st'.openedBrackets == st.openedBrackets
    requires st'.current.start == st.current.start && st'.current.value == st.current.value + [text[i]]
    requires st'.current.kind.Some? && Growing(st'.current.kind.value)
    requires Shaped(st'.current.kind.value, st'.current.value)
    ensures Inv(text, i + 1, st') == true
  {
    GrowConcat(text, i, Concat(st.query), st.current.value);
    InvIntro(text, i + 1, st');
  }

  /** Reading a sign or a stray character keeps the invariant. */
  lemma EmitKeepsInv(text: string, i: int, st: LexState, kind: Lab1TokenType, st': LexState)
    requires Inv(text, i, st) == true && i < |text|
    requires kind == OperationAddOrMinus || kind == OperationMultiplyOrDivide || kind == Error
    requires Shaped(kind, [text[i]])
    requires text[i] != '.' && !IsDigit(text[i]) && !IsLetter(text[i])
    requires st' == Emit(st, text[i], i, kind)
    ensures Inv(text, i + 1, st') == true
  {
    EmitStepKeepsInv(text, i, st, st.current, kind, st');
  }

  /** Reading an opening bracket keeps the invariant. */
  lemma ReadOpenBracketKeepsInv(text: string, i: int, st: LexState, st': LexState)
    requires Inv(text, i, st) == true && i < |text|
    requires text[i] == '('
    requires st' == ReadBracket(st, text[i], i)
    ensures Inv(text, i + 1, st') == true
  {
    if st.current.kind == Some(Constant) {
      CallBracketKeepsInv(text, i, st, st');
    } else {
      GroupBracketKeepsInv(text, i, st, st');
    }
  }

  /** An opening bracket right after a name makes the name a function. */
  lemma CallBracketKeepsInv(text: string, i: int, st: LexState, st': LexState)
    requires Inv(text, i, st) == true && i < |text|
    requires text[i] == '(' && st.current.kind == Some(Constant)
    requires st' == LexState(Pending(i + 1, None, []),
                             AddAndFinishAnother(st.current.(kind := Some(Function)), i, st.query, FunctionOpenBracket, text[i]).1,
                             st.openedBrackets + [FunctionOpenBracket])
    ensures Inv(text, i + 1, st') == true
  {
    EmitStepKeepsInv(text, i, st, st.current.(kind := Some(Function)), FunctionOpenBracket, st');
  }

  /** Any other opening bracket opens a group. */
  lemma GroupBracketKeepsInv(text: string, i: int, st: LexState, st': LexState)
    requires Inv(text, i, st) == true && i < |text|
    requires text[i] == '(' && st.current.kind != Some(Constant)
    requires st' == LexState(Pending(i + 1, None, []),
                             AddAndFinishAnother(st.current, i, st.query, OpenBracket, text[i]).1,
                             st.openedBrackets + [OpenBracket])
    ensures Inv(text, i + 1, st') == true
  {
    EmitStepKeepsInv(text, i, st, st.current, OpenBracket, st');
  }

  /** Reading a closing bracket keeps the invariant. */
  lemma ReadCloseBracketKeepsInv(text: string, i: int, st: LexState, st': LexState)
    requires Inv(text, i, st) == true && i < |text|
    requires text[i] == ')'
    requires st' == ReadBracket(st, text[i], i)
    ensures Inv(text, i + 1, st') == true
  {
    var stack := st.openedBrackets;
    var kind := if stack != [] && stack[|stack| - 1] == FunctionOpenBracket then FunctionCloseBracket else CloseBracket;
    CloserKeepsInv(text, i, st, kind, st');
  }

  /** A closing bracket of the kind the innermost open bracket calls for. */
  lemma CloserKeepsInv(text: string, i: int, st: LexState, kind: Lab1TokenType, st': LexState)
    requires Inv(text, i, st) == true && i < |text|
    requires text[i] == ')' && (kind == CloseBracket || kind == FunctionCloseBracket)
    requires CloserFits(st.openedBrackets, kind)
    requires st' == LexState(Pending(i + 1, None, []),
                             AddAndFinishAnother(st.current, i, st.query, kind, text[i]).1,
                             StackAfter(st.openedBrackets, kind))
    ensures Inv(text, i + 1, st') == true
  {
    EmitStepKeepsInv(text, i, st, st.current, kind, st');
  }

  /** Reading a dot keeps the invariant. */
  lemma ReadDotKeepsInv(text: string, i: int, st: LexState, st': LexState)
    requires Inv(text, i, st) == true && i < |text|
    requires text[i] == '.'
    requires st' == ReadDot(st, text[i], i)
    ensures Inv(text, i + 1, st') == true
  {
    if st.current.kind == Some(Integer) || st.current.kind == Some(Decimal) {
      DotInNumberKeepsInv(text, i, st, st');
    } else {
      StrayDotKeepsInv(text, i, st, st');
    }
  }

  /** A dot inside a number makes it a decimal. */
  lemma DotInNumberKeepsInv(text: string, i: int, st: LexState, st': LexState)
    requires Inv(text, i, st) == true && i < |text|
    requires text[i] == '.'
    requires st.current.kind == Some(Integer) || st.current.kind == Some(Decimal)
    requires st' == ReadDot(st, text[i], i)
    ensures Inv(text, i + 1, st') == true
  {
    DotMakesDecimal(st.current.kind.value, st.current.value);
    ExtendKeepsInv(text, i, st, st');
  }

  /** A dot that does not follow a number is an error token of its own. */
  lemma StrayDotKeepsInv(text: string, i: int, st: LexState, st': LexState)
    requires Inv(text, i, st) == true && i < |text|
    requires text[i] == '.' && st.current.kind != Some(Integer) && st.current.kind != Some(Decimal)
    requires st' == Emit(st, text[i], i, Error)
    ensures Inv(text, i + 1, st') == true
  {
    EmitStepKeepsInv(text, i, st, st.current, Error, st');
  }

  /** A digit right after a name is an error token of its own. */
  lemma DigitAfterNameKeepsInv(text: string, i: int, st: LexState, st': LexState)
    requires Inv(text, i, st) == true && i < |text|
    requires IsDigit(text[i]) && st.current.kind == Some(Constant)
    requires st' == Emit(st, text[i], i, Error)
    ensures Inv(text, i + 1, st') == true
  {
    EmitStepKeepsInv(text, i, st, st.current, Error, st');
  }

  /** A letter right after a number is an error token of its own. */
  lemma LetterAfterNumberKeepsInv(text: string, i: int, st: LexState, st': LexState)
    requires Inv(text, i, st) == true && i < |text|
    requires IsLetter(text[i]) && (st.current.kind == Some(Integer) || st.current.kind == Some(Decimal))
    requires st' == Emit(st, text[i], i, Error)
    ensures Inv(text, i + 1, st') == true
  {
    EmitStepKeepsInv(text, i, st, st.current, Error, st');
  }

  /** A name keeps its shape when an opening bracket turns it into a function name. */
  lemma NameAsFunction(v: string)
    requires Shaped(Constant, v)
    ensures Shaped(Function, v)
  {
    forall j | 0 <= j < |v|
      ensures CharFits(Function, v[j])
    {
      assert CharFits(Constant, v[j]);
    }
  }

  /** A dot appended to a number makes it a decimal. */
  lemma DotMakesDecimal(kind: Lab1TokenType, v: string)
    requires kind == Integer || kind == Decimal
    requires Shaped(kind, v)
    ensures Shaped(Decimal, v + ['.'])
  {
    var v' := v + ['.'];
    assert v'[0] == v[0];
    assert v'[|v'| - 1] == '.';
  }

  /** A digit appended to a number leaves it a number of the same kind. */
  lemma DigitExtendsNumber(kind: Lab1TokenType, v: string, c: char)
    requires kind == Integer || kind == Decimal
    requires Shaped(kind, v) && IsDigit(c)
    ensures Shaped(kind, v + [c])
  {
    var v' := v + [c];
    assert v'[0] == v[0];
    if kind == Decimal {
      var j :| 0 <= j < |v| && v[j] == '.';
      assert v'[j] == '.';
    }
  }

  /** Reading a digit keeps the invariant. */
  lemma ReadDigitKeepsInv(text: string, i: int, st: LexState, st': LexState)
    requires Inv(text, i, st) == true && i < |text|
    requires IsDigit(text[i])
    requires st' == ReadDigit(st, text[i], i)
    ensures Inv(text, i + 1, st') == true
  {
    var cur := st.current;
    if cur.kind.None? {
      ExtendKeepsInv(text, i, st, st');
    } else if cur.kind == Some(Integer) || cur.kind == Some(Decimal) {
      DigitInNumberKeepsInv(text, i, st, st');
    } else {
      DigitAfterNameKeepsInv(text, i, st, st');
    }
  }

  /** A digit inside a number extends it. */
  lemma DigitInNumberKeepsInv(text: string, i: int, st: LexState, st': LexState)
    requires Inv(text, i, st) == true && i < |text|
    requires IsDigit(text[i])
    requires st.current.kind == Some(Integer) || st.current.kind == Some(Decimal)
    requires st' == ReadDigit(st, text[i], i)
    ensures Inv(text, i + 1, st') == true
  {
    DigitExtendsNumber(st.current.kind.value, st.current.value, text[i]);
    ExtendKeepsInv(text, i, st, st');
  }

  /** Reading a letter keeps the invariant. */
  lemma ReadLetterKeepsInv(text: string, i: int, st: LexState, st': LexState)
    requires Inv(text, i, st) == true && i < |text|
    requires IsLetter(text[i])
    requires st' == ReadLetter(st, text[i], i)
    ensures Inv(text, i + 1, st') == true
  {
    var cur := st.current;
    if cur.kind.None? || cur.kind == Some(Constant) {
      ExtendKeepsInv(text, i, st, st');
    } else {
      LetterAfterNumberKeepsInv(text, i, st, st');
    }
  }

  /** Reading one character keeps the invariant. */
  lemma StepKeepsInv(text: string, i: int, st: LexState, st': LexState)
    requires Inv(text, i, st) == true && i < |text|
    requires st' == Step(st, text[i], i)
    ensures Inv(text, i + 1, st') == true
  {
    var c := text[i];
    if c == '(' {
      ReadOpenBracketKeepsInv(text, i, st, st');
    } else if c == ')' {
      ReadCloseBracketKeepsInv(text, i, st, st');
    } else if c == '+' || c == '-' {
      EmitKeepsInv(text, i, st, OperationAddOrMinus, st');
    } else if c == '*' || c == '/' {
      EmitKeepsInv(text, i, st, OperationMultiplyOrDivide, st');
    } else if c == '.' {
      ReadDotKeepsInv(text, i, st, st');
    } else if IsDigit(c) {
      ReadDigitKeepsInv(text, i, st, st');
    } else if IsLetter(c) {
      ReadLetterKeepsInv(text, i, st, st');
    } else {
      EmitKeepsInv(text, i, st, Error, st');
    }
  }

  /** Every state the loop reaches keeps `Inv`. */
  lemma {:induction false} RunKeepsInv(text: string, i: nat, st: LexState)
    requires i <= |text| && Inv(text, i, st) == true
    ensures Inv(text, |text|, RunFrom(text, i, st)) == true
    decreases |text| - i
  {
    if i < |text| {
      RunFromStep(text, i, st);
      StepKeepsInv(text, i, st, Step(st, text[i], i));
      RunKeepsInv(text, i + 1, Step(st, text[i], i));
    }
  }

  /** One turn of the loop. */
  lemma RunFromStep(text: string, i: nat, st: LexState)
    requires i < |text|
    ensures RunFrom(text, i, st) == RunFrom(text, i + 1, Step(st, text[i], i))
  {
  }

  /** A sentence is refused exactly when it is blank; otherwise its tokens
    * spell out the whole sentence, one after another as `Lexed` describes,
    * and the last token is not a function name left without its bracket. */
  lemma LexSucceeds(text: string)
    ensures Lex(text).Failure? <==> IsBlank(text)
    ensures Lex(text).Success? ==>
      var toks := Lex(text).value;
      && toks != []
      && Lexed(text, toks, |text|)
      && Concat(toks) == text
      && toks[|toks| - 1].tokenType != Function
  {
    if !IsBlank(text) {
      RunKeepsInv(text, 0, Start);
      FlushKeepsLexed(text, RunFrom(text, 0, Start));
    }
  }

  /** What the final flush leaves when the whole text has been read. */
  lemma FlushKeepsLexed(text: string, st: LexState)
    requires !IsBlank(text) && Inv(text, |text|, st) == true
    ensures var toks := if st.current.kind.Some? then FinishProcessing(st.current, |text| - 1, st.query).1 else st.query;
      && toks != []
      && Lexed(text, toks, |text|)
      && Concat(toks) == text
      && toks[|toks| - 1].tokenType != Function
  {
    assert text[..|text|] == text;
    if st.current.kind.Some? {
      FinishKeepsLexed(text, |text|, st.current, st.query);
    } else {
      assert st.current.value == [];
    }
  }

  /** The tokens of `Lexed` are as long together as the text they span. */
  lemma {:induction false} LexedLength(text: string, toks: seq<Lab1Token>, upTo: int)
    requires Lexed(text, toks, upTo)
    ensures |Concat(toks)| == upTo
  {
    if toks != [] {
      LexedLength(text, toks[..|toks| - 1], toks[|toks| - 1].startPosition);
    }
  }

  /** Each token of `Lexed` lies inside the text, and holds exactly the
    * characters between its start and end positions when the tokens
    * together spell the text. */
  lemma {:induction false} TokensAreSlices(text: string, toks: seq<Lab1Token>, upTo: int)
    requires Lexed(text, toks, upTo) && Concat(toks) == text[..upTo]
    ensures forall k :: 0 <= k < |toks| ==>
      && 0 <= toks[k].startPosition <= toks[k].endPosition < upTo
      && toks[k].value == text[toks[k].startPosition..toks[k].endPosition + 1]
  {
    if toks != [] {
      var before := toks[..|toks| - 1];
      var t := toks[|toks| - 1];
      LexedLength(text, before, t.startPosition);
      assert Concat(toks) == Concat(before) + t.value;
      assert Concat(before) == text[..upTo][..t.startPosition] == text[..t.startPosition];
      assert t.value == text[..upTo][t.startPosition..] == text[t.startPosition..upTo];
      TokensAreSlices(text, before, t.startPosition);
      SlicesStep(text, toks, upTo);
    }
  }

  /** The step of `TokensAreSlices`: the last token is the slice of the
    * text before `upTo` that starts where the earlier tokens stop. */
  lemma SlicesStep(text: string, toks: seq<Lab1Token>, upTo: int)
    requires toks != []
    requires var t := toks[|toks| - 1];
      && 0 <= t.startPosition <= t.endPosition && t.endPosition + 1 == upTo <= |text|
      && t.value == text[t.startPosition..upTo]
    requires var before, t := toks[..|toks| - 1], toks[|toks| - 1];
      forall k :: 0 <= k < |before| ==>
        && 0 <= before[k].startPosition <= before[k].endPosition < t.startPosition
        && before[k].value == text[before[k].startPosition..before[k].endPosition + 1]
    ensures forall k :: 0 <= k < |toks| ==>
      && 0 <= toks[k].startPosition <= toks[k].endPosition < upTo
      && toks[k].value == text[toks[k].startPosition..toks[k].endPosition + 1]
  {
    var before := toks[..|toks| - 1];
    forall k | 0 <= k < |toks|
      ensures 0 <= toks[k].startPosition <= toks[k].endPosition < upTo
      ensures toks[k].value == text[toks[k].startPosition..toks[k].endPosition + 1]
    {
      if k < |before| {
        assert toks[k] == before[k];
      }
    }
  }

  /** In `Lexed` the first token starts the text, the last ends at `upTo`, and
    * each token starts right after the one before it. */
  lemma {:induction false} LexedAdjacent(text: string, toks: seq<Lab1Token>, upTo: int)
    requires Lexed(text, toks, upTo)
    ensures toks != [] ==> toks[0].startPosition == 0 && toks[|toks| - 1].endPosition + 1 == upTo
    ensures forall k :: 0 < k < |toks| ==> toks[k - 1].endPosition + 1 == toks[k].startPosition
  {
    if toks != [] {
      var before := toks[..|toks| - 1];
      LexedAdjacent(text, before, toks[|toks| - 1].startPosition);
      forall k | 0 <= k < |before|
        ensures toks[k] == before[k]
      {
      }
    }
  }

  /** In `Lexed` each token is a `NextToken` of the tokens before it: its
    * shape fits its kind, it may follow its predecessor, and a closing
    * bracket fits the brackets still open. */
  lemma LexedEach(text: string, toks: seq<Lab1Token>, upTo: int)
    requires Lexed(text, toks, upTo)
    ensures forall k :: 0 <= k < |toks| ==> NextToken(text, toks[..k], toks[k])
  {
    forall k | 0 <= k < |toks|
      ensures NextToken(text, toks[..k], toks[k])
    {
      LexedAt(text, toks, upTo, k);
    }
  }

  /** The token at `k` of a `Lexed` sequence is a `NextToken` of those before it. */
  lemma {:induction false} LexedAt(text: string, toks: seq<Lab1Token>, upTo: int, k: int)
    requires Lexed(text, toks, upTo) && 0 <= k < |toks|
    ensures NextToken(text, toks[..k], toks[k])
  {
    if k < |toks| - 1 {
      var before := toks[..|toks| - 1];
      LexedAt(text, before, toks[|toks| - 1].startPosition, k);
      PrefixOfPrefix(toks, k);
    }
  }

  lemma PrefixOfPrefix(toks: seq<Lab1Token>, k: int)
    requires 0 <= k < |toks|
    ensures toks[..|toks| - 1][..k] == toks[..k]
  {
  }

  /** The kind of a token that starts with a digit: a number, except right
    * after a name, where the digit is an error. */
  lemma DigitKind(text: string, toks: seq<Lab1Token>, upTo: int, k: int)
    requires Lexed(text, toks, upTo) && 0 <= k < |toks|
    ensures |toks[k].value| >= 1
    ensures IsDigit(toks[k].value[0]) ==>
      && (toks[k].tokenType == Integer || toks[k].tokenType == Decimal || toks[k].tokenType == Error)
      && (toks[k].tokenType == Error <==> 0 < k && toks[k - 1].tokenType == Constant)
  {
    LexedAt(text, toks, upTo, k);
    var t := toks[k];
    if IsDigit(t.value[0]) {
      if OneChar(t.tokenType) {
        assert SymbolFits(t.tokenType, t.value[0]);
      } else {
        assert CharFits(t.tokenType, t.value[0]);
      }
      if 0 < k {
        assert toks[..k][k - 1] == toks[k - 1];
      }
    }
  }

  /** The kind of a token that starts with a letter: a name, except right
    * after a number, where the letter is an error. */
  lemma LetterKind(text: string, toks: seq<Lab1Token>, upTo: int, k: int)
    requires Lexed(text, toks, upTo) && 0 <= k < |toks|
    ensures |toks[k].value| >= 1
    ensures IsLetter(toks[k].value[0]) ==>
      && (toks[k].tokenType == Constant || toks[k].tokenType == Function || toks[k].tokenType == Error)
      && (toks[k].tokenType == Error <==>
            0 < k && (toks[k - 1].tokenType == Integer || toks[k - 1].tokenType == Decimal))
  {
    LexedAt(text, toks, upTo, k);
    var t := toks[k];
    if IsLetter(t.value[0]) {
      if OneChar(t.tokenType) {
        assert SymbolFits(t.tokenType, t.value[0]);
      } else {
        assert CharFits(t.tokenType, t.value[0]);
      }
      if 0 < k {
        assert toks[..k][k - 1] == toks[k - 1];
      }
    }
  }

  /** Two token lists that spell a sentence but are not what the lexer
    * makes of it: a digit after an operator, and a number split into
    * error tokens. */
  lemma MisreadNumbersAreNotLexed()
    ensures !Lexed("1+2", [Lab1Token(0, 0, Integer, "1"), Lab1Token(1, 1, OperationAddOrMinus, "+"),
                           Lab1Token(2, 2, Error, "2")], 3)
    ensures !Lexed("12", [Lab1Token(0, 0, Error, "1"), Lab1Token(1, 1, Error, "2")], 2)
  {
    var a := [Lab1Token(0, 0, Integer, "1"), Lab1Token(1, 1, OperationAddOrMinus, "+"), Lab1Token(2, 2, Error, "2")];
    if Lexed("1+2", a, 3) {
      DigitKind("1+2", a, 3, 2);
    }
    var b := [Lab1Token(0, 0, Error, "1"), Lab1Token(1, 1, Error, "2")];
    if Lexed("12", b, 2) {
      DigitKind("12", b, 2, 0);
    }
  }
}
