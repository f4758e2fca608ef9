/**
 * The token vocabulary shared by the validator, the tree builder and the
 * rewrite engines: the thirteen token kinds, the operand kinds, and the
 * token record with its `addToValue` accumulator.
 */
module Lexical {
  import opened Wrappers

  /** The thirteen token kinds; plus, minus, times and divide are separate. */
  datatype TokenType =
    | Integer | Decimal | Constant | Function
    | FunctionOpenBracket | FunctionCloseBracket
    | OperationAdd | OperationMinus | OperationMultiply | OperationDivide
    | OpenBracket | CloseBracket | Error

  /** Every token kind, listed once. */
  const AllTokenTypes: set<TokenType> :=
    {Integer, Decimal, Constant, Function, FunctionOpenBracket, FunctionCloseBracket,
     OperationAdd, OperationMinus, OperationMultiply, OperationDivide,
     OpenBracket, CloseBracket, Error}

  /** The kinds that stand for a value (a function name counts as one). */
  const OperandTypes: set<TokenType> := {Integer, Decimal, Constant, Function}

  lemma TokenTypeCount()
    ensures forall k: TokenType :: k in AllTokenTypes
    ensures |AllTokenTypes| == 13
  {
    forall k: TokenType ensures k in AllTokenTypes {
      match k
      case Integer => case Decimal => case Constant => case Function =>
      case FunctionOpenBracket => case FunctionCloseBracket =>
      case OperationAdd => case OperationMinus => case OperationMultiply => case OperationDivide =>
      case OpenBracket => case CloseBracket => case Error =>
    }
  }

  lemma OperandTypesExcludeBracketsAndOperators()
    ensures OperandTypes <= AllTokenTypes
    ensures Function in OperandTypes
    ensures forall k :: k in OperandTypes <==> k in {Integer, Decimal, Constant, Function}
    ensures forall k :: k in {FunctionOpenBracket, FunctionCloseBracket, OpenBracket, CloseBracket,
                             OperationAdd, OperationMinus, OperationMultiply, OperationDivide, Error}
                        ==> k !in OperandTypes
  {
  }

  /**
   * A token: inclusive character positions, a kind and its text. Each field
   * is `None` until it is set, as the Java fields are `null`.
   */
  datatype Token = Token(
    startPosition: Option<int>,
    endPosition: Option<int>,
    tokenType: Option<TokenType>,
    value: Option<string>)
  {
    /** A token whose four fields are all set, as every finished token is. */
    predicate Complete() {
      startPosition.Some? && endPosition.Some? && tokenType.Some? && value.Some?
    }

    /** Appends one character to the text; a missing text becomes that character. */
    function AddToValue(c: char): (t: Token)
      ensures t.value.Some?
      ensures value.None? ==> t.value.value == [c]
      ensures value.Some? ==> t.value.value == value.value + [c]
      ensures t.startPosition == startPosition && t.endPosition == endPosition
      ensures t.tokenType == tokenType
    {
      match value
      case None => this.(value := Some([c]))
      case Some(v) => this.(value := Some(v + [c]))
    }

    /** The setter of the token kind, which is how the validator retags a token. */
    function WithType(k: TokenType): (t: Token)
      ensures t.tokenType == Some(k)
      ensures t.startPosition == startPosition && t.endPosition == endPosition && t.value == value
    {
      this.(tokenType := Some(k))
    }
  }

  /** The one-argument constructor: only the start position is set. */
  function StartToken(start: int): (t: Token)
    ensures t.startPosition == Some(start)
    ensures t.endPosition.None? && t.tokenType.None? && t.value.None?
  {
    Token(Some(start), None, None, None)
  }

  /** Appending the characters of `s` one by one, in order. */
  function AddAllToValue(t: Token, s: string): Token
    decreases |s|
  {
    if s == [] then t else AddAllToValue(t.AddToValue(s[0]), s[1..])
  }

  /** Accumulating a non-empty text into a fresh token yields exactly that text. */
  lemma {:induction false} AddAllToValueAccumulates(t: Token, s: string)
    ensures AddAllToValue(t, s).startPosition == t.startPosition
    ensures AddAllToValue(t, s).tokenType == t.tokenType
    ensures t.value.Some? ==> AddAllToValue(t, s).value == Some(t.value.value + s)
    ensures t.value.None? && s != [] ==> AddAllToValue(t, s).value == Some(s)
    decreases |s|
  {
    if s != [] {
      var t' := t.AddToValue(s[0]);
      AddAllToValueAccumulates(t', s[1..]);
      assert AddAllToValue(t, s) == AddAllToValue(t', s[1..]);
      if t.value.Some? {
        assert t'.value.value == t.value.value + [s[0]];
        assert t.value.value + s == (t.value.value + [s[0]]) + s[1..];
      } else {
        assert s == [s[0]] + s[1..];
      }
    } else if t.value.Some? {
      assert t.value.value + s == t.value.value;
    }
  }
}
