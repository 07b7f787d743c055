/**
 * The tokenizing text box: a list of committed tokens (the list box's items)
 * beside a text box whose text is turned into tokens whenever it holds the
 * delimiter.
 */
module Controls {
  import opened Wrappers
  import opened StringSplit

  /** The delimiter the control uses: a single space. */
  const Space: char := ' '

  /** What one text-input event does to the control. */
  datatype Step =
    | Unchanged                                 // nothing is committed, text and caret stay as they are
    | Commit(tokens: seq<string>, rest: string) // `tokens` are appended, the text becomes `rest`, caret at its end

  /** How an operation ends: normally, or with the .NET exception it raises. */
  datatype Completion = Normal | NullReferenceException

  /** The length of the text box's text, a null text counting as empty. */
  function TextLength(text: Option<string>): (r: nat)
  {
    match text
    case None => 0
    case Some(t) => |t|
  }

  /**
   * The effect of one text-input event on text `text` with delimiter `d`:
   * split the text on `d` dropping empty pieces; commit them all when the
   * text ends with `d`, otherwise commit all but the last and keep the last
   * as the new text.
   */
  function TextChangedStep(text: Option<string>, d: char): (r: Step)
    ensures r.Unchanged? <==> (text.None? || d !in text.value)
    ensures r.Commit? ==> forall i :: 0 <= i < |r.tokens| ==> r.tokens[i] != "" && d !in r.tokens[i]
    ensures r.Commit? ==> d !in r.rest
    ensures r.Commit? ==> (r.rest == "" <==> text.value[|text.value| - 1] == d)
  {
    match text
    case None => Unchanged
    case Some(t) =>
      if d !in t then Unchanged
      else
        var tokens := SplitNonEmpty(t, d);
        if t[|t| - 1] == d then Commit(tokens, "")
        else
          SplitHasToken(t, d, |t| - 1);
          Commit(tokens[..|tokens| - 1], tokens[|tokens| - 1])
  }

  /**
   * No input is lost: the committed tokens followed by the tokens of the
   * text left behind are exactly the tokens of the original text.
   */
  lemma StepLosesNothing(text: Option<string>, d: char)
    requires TextChangedStep(text, d).Commit?
    ensures TextChangedStep(text, d).tokens + SplitNonEmpty(TextChangedStep(text, d).rest, d)
            == SplitNonEmpty(text.value, d)
  {
    var r := TextChangedStep(text, d);
    var t := text.value;
    SplitWithoutDelimiter(r.rest, d);
    if t[|t| - 1] != d {
      var tokens := SplitNonEmpty(t, d);
      SplitHasToken(t, d, |t| - 1);
      assert tokens == tokens[..|tokens| - 1] + [tokens[|tokens| - 1]];
    }
  }

  /**
   * A second event on the text a commit leaves behind does nothing: the
   * remainder never holds the delimiter. A corollary of the contract of
   * `TextChangedStep`, stated for the record.
   */
  lemma StepSettles(text: Option<string>, d: char)
    requires TextChangedStep(text, d).Commit?
    ensures TextChangedStep(Some(TextChangedStep(text, d).rest), d) == Unchanged
  {
  }

  /** Worked example: a trailing space commits every word and clears the text. */
  lemma TrailingSpaceExample()
    ensures TextChangedStep(Some("ab c "), Space) == Commit(["ab", "c"], "")
  {
    var fs := ["ab", "c", ""];
    assert Join(fs[2..], Space) == "";
    assert Join(fs[1..], Space) == "c" + [Space] + "";
    assert Join(fs, Space) == "ab c ";
    FragmentsOfJoin(fs, Space);
    assert NonEmpty(fs[2..]) == [];
    assert NonEmpty(fs[1..]) == ["c"];
  }

  /** Worked example: consecutive spaces never make an empty token, and the last word stays as the text. */
  lemma KeepLastWordExample()
    ensures TextChangedStep(Some(" a  b"), Space) == Commit(["a"], "b")
  {
    var fs := ["", "a", "", "b"];
    assert Join(fs[3..], Space) == "b";
    assert Join(fs[2..], Space) == "" + [Space] + "b";
    assert Join(fs[1..], Space) == "a" + [Space] + " b";
    assert Join(fs, Space) == " a  b";
    FragmentsOfJoin(fs, Space);
    assert NonEmpty(fs[3..]) == ["b"];
    assert NonEmpty(fs[2..]) == ["b"];
    assert NonEmpty(fs[1..]) == ["a", "b"];
  }

  class TokenizingTextBox {
    /** The delimiter character; the control hard-codes a space. */
    const delimiter: char
    /** The committed tokens (the list box's `Items`), in commit order. */
    var items: seq<string>
    /** The text box's `Text`; `None` is a null text. */
    var text: Option<string>
    /** The text box's `CaretIndex`. */
    var caret: nat

    /** The caret never lies past the end of the text. */
    ghost predicate Valid()
      reads this
    {
      caret <= TextLength(text)
    }

    constructor (delimiter: char := Space)
      ensures Valid()
      ensures this.delimiter == delimiter
      ensures items == [] && text == None && caret == 0
    {
      this.delimiter := delimiter;
      items := [];
      text := None;
      caret := 0;
    }

    /**
     * Assigning the text box's `Text`: the text box keeps its caret where it
     * was, pulled back to the end of the new text when it would lie past it.
     */
    method SetText(s: string)
      modifies this
      ensures Valid()
      ensures text == Some(s)
      ensures caret == if old(caret) <= |s| then old(caret) else |s|
      ensures items == old(items)
    {
      text := Some(s);
      if caret > |s| {
        caret := |s|;
      }
    }

    /**
     * Appends `token` when it is non-empty, by building a new list of the
     * old items followed by the token; an empty token changes nothing.
     */
    method AddToken(token: string)
      modifies this
      ensures items == old(items) + (if token != "" then [token] else [])
      ensures text == old(text) && caret == old(caret)
    {
      if |token| > 0 {
        var tokens: seq<string> := [];
        var i := 0;
        while i < |items|
          invariant 0 <= i <= |items|
          invariant tokens == items[..i]
        {
          tokens := tokens + [items[i]];
          i := i + 1;
        }
        tokens := tokens + [token];
        items := tokens;
      }
    }

    /**
     * Commits the whole text as one token and clears the text box. A null
     * text is cleared too, and then the token's length is read from a null
     * reference.
     */
    method AddTokenFromText() returns (c: Completion)
      requires Valid()
      modifies this
      ensures Valid()
      ensures text == Some("") && caret == 0
      ensures c == NullReferenceException <==> old(text) == None
      ensures items == old(items) + (if old(text).Some? && old(text).value != "" then [old(text).value] else [])
    {
      var t := text;
      SetText("");
      match t
      case None =>
        c := NullReferenceException;
      case Some(s) =>
        AddToken(s);
        c := Normal;
    }

    /**
     * The handler of a text-input event: reads the text box's text and, when
     * it holds the delimiter, commits the tokens it splits into, as
     * `TextChangedStep` says. The event's arguments play no part.
     */
    method TextChanged()
      requires Valid()
      modifies this
      ensures Valid()
      ensures match TextChangedStep(old(text), delimiter)
        case Unchanged =>
          items == old(items) && text == old(text) && caret == old(caret)
        case Commit(tokens, rest) =>
          items == old(items) + tokens && text == Some(rest) && caret == |rest|
    {
      if text.None? {
        return;
      }
      var t := text.value;
      if delimiter in t {
        var lastDelimited := t[|t| - 1] == delimiter;
        var tokens := SplitNonEmpty(t, delimiter);
        if !lastDelimited {
          SplitHasToken(t, delimiter, |t| - 1);
        }
        var numberToProcess := if lastDelimited then |tokens| else |tokens| - 1;
        ghost var before := items;
        var position := 0;
        while position < numberToProcess
          invariant 0 <= position <= numberToProcess
          invariant items == before + tokens[..position]
          invariant text == Some(t) && Valid()
        {
          AddToken(tokens[position]);
          assert tokens[..position + 1] == tokens[..position] + [tokens[position]];
          position := position + 1;
        }
        if lastDelimited {
          SetText("");
        } else {
          SetText(tokens[|tokens| - 1]);
          caret := |tokens[|tokens| - 1]|;
        }
      }
    }
  }
}
