/**
 * `EditableText`: the text box of the user interface, a list of entries,
 * each a code point and the font model that draws it.
 *
 * The font is the lookup `font` from code points to models, fixed when the
 * text box is made; a code point it has no model for is the `null` model
 * `getModel` refuses. Java strings enter and leave as their sequences of
 * code points. Layout and rendering (`render`, `width`, `shape`) are not
 * part of this model.
 */
module EditableText {
  import opened Java

  /** A Unicode code point, one of the values `String.codePoints` yields. */
  type CodePoint = c: int | 0 <= c < 0x11_0000

  /** A glyph model of the font, as an opaque handle. */
  type Model = nat

  /** `EditableText.Entry`: one character of the text and the model that draws it. */
  datatype Entry = Entry(model: Model, character: int32)

  /** `getModel`: the font's model for `c`, or `IllegalArgumentException` when it has none. */
  function ModelOf(font: map<int32, Model>, c: int32): (r: Result<Model>)
    ensures r.Ok? <==> c in font
    ensures r.Ok? ==> r.value == font[c]
    ensures r.Err? ==> r.error == IllegalArgument
  {
    if c in font then Ok(font[c]) else Err(IllegalArgument)
  }

  /** Every entry carries the model the font has for its character. */
  ghost predicate Drawn(font: map<int32, Model>, entries: seq<Entry>)
  {
    forall k | 0 <= k < |entries| :: entries[k].character in font && entries[k].model == font[entries[k].character]
  }

  /** The characters of the entries, in order. */
  function Characters(entries: seq<Entry>): seq<int32>
  {
    seq(|entries|, k requires 0 <= k < |entries| => entries[k].character)
  }

  /** The number of code points of `text` before the first one the font has no model for. */
  function KnownPrefix(font: map<int32, Model>, text: seq<CodePoint>): (n: nat)
    ensures n <= |text|
    ensures forall k | 0 <= k < n :: text[k] in font
    ensures n < |text| ==> text[n] !in font
  {
    if |text| == 0 || text[0] !in font then 0 else 1 + KnownPrefix(font, text[1..])
  }

  /** The entries `entry` makes for code points the font knows. */
  function Entries(font: map<int32, Model>, text: seq<CodePoint>): seq<Entry>
    requires forall k | 0 <= k < |text| :: text[k] in font
  {
    seq(|text|, k requires 0 <= k < |text| => Entry(font[text[k]], text[k]))
  }

  /** A sequence back to front. */
  function Reversed<T>(s: seq<T>): (r: seq<T>)
    ensures |r| == |s|
  {
    if |s| == 0 then [] else Reversed(s[1..]) + [s[0]]
  }

  /** The entries made for known code points draw them, and their characters are those code points. */
  lemma EntriesRoundTrip(font: map<int32, Model>, text: seq<CodePoint>)
    requires forall k | 0 <= k < |text| :: text[k] in font
    ensures Drawn(font, Entries(font, text))
    ensures Characters(Entries(font, text)) == text
  {
  }

  /** Two texts drawn by one font are the same entries exactly when they have the same characters. */
  lemma DrawnByCharacters(font: map<int32, Model>, a: seq<Entry>, b: seq<Entry>)
    requires Drawn(font, a) && Drawn(font, b)
    ensures a == b <==> Characters(a) == Characters(b)
  {
    if Characters(a) == Characters(b) {
      assert |a| == |Characters(a)|;
      forall k | 0 <= k < |a|
        ensures a[k] == b[k]
      {
        assert a[k].character == Characters(a)[k] == Characters(b)[k] == b[k].character;
      }
    }
  }

  /** The element at `k` of a reversed sequence is the one `k` places from the end. */
  lemma {:induction false} ReversedAt<T>(s: seq<T>, k: int)
    requires 0 <= k < |s|
    ensures Reversed(s)[k] == s[|s| - 1 - k]
    decreases |s|
  {
    if k < |s| - 1 {
      ReversedAt(s[1..], k);
    }
  }

  /** Reversing entries reverses their characters. */
  lemma ReversedCharacters(entries: seq<Entry>)
    ensures Characters(Reversed(entries)) == Reversed(Characters(entries))
  {
    forall k | 0 <= k < |entries|
      ensures Characters(Reversed(entries))[k] == Reversed(Characters(entries))[k]
    {
      ReversedAt(entries, k);
      ReversedAt(Characters(entries), k);
    }
  }

  /** The characters of joined entries are the joined characters. */
  lemma CharactersJoin(a: seq<Entry>, b: seq<Entry>)
    ensures Characters(a + b) == Characters(a) + Characters(b)
  {
  }

  /**
   * Inserting the code points of a string one after another at the same
   * index leaves them in reverse order: the text reads as the old text up
   * to the index, the inserted string back to front, then the rest.
   */
  lemma InsertReverses(font: map<int32, Model>, old_: seq<Entry>, index: nat, text: seq<CodePoint>)
    requires index <= |old_|
    requires forall k | 0 <= k < |text| :: text[k] in font
    ensures Characters(old_[..index] + Reversed(Entries(font, text)) + old_[index..])
      == Characters(old_)[..index] + Reversed<int32>(text) + Characters(old_)[index..]
  {
    var front, back, middle := old_[..index], old_[index..], Reversed(Entries(font, text));
    CharactersJoin(front + middle, back);
    CharactersJoin(front, middle);
    ReversedCharacters(Entries(font, text));
    EntriesRoundTrip(font, text);
    CharactersSplit(old_, index);
  }

  /** The characters before and after an index are those of the entries before and after it. */
  lemma CharactersSplit(entries: seq<Entry>, index: nat)
    requires index <= |entries|
    ensures Characters(entries[..index]) == Characters(entries)[..index]
    ensures Characters(entries[index..]) == Characters(entries)[index..]
  {
  }

  class EditableText {
    var content: seq<Entry>
    const font: map<int32, Model>

    /** Every entry was made by `entry`, so it carries the font's model for its character. */
    ghost predicate Valid()
      reads this
    {
      Drawn(font, content)
    }

    /** A text box with no content. */
    constructor(font: map<int32, Model>)
      ensures Valid()
      ensures this.font == font && content == []
    {
      this.font := font;
      content := [];
    }

    /** `length()`: the number of code points of the text. */
    function Length(): (r: nat)
      reads this
      ensures r == |Characters(content)|
    {
      |content|
    }

    /** `hasContent()`: whether the text has at least one code point. */
    function HasContent(): (r: bool)
      reads this
      ensures r <==> Length() > 0
    {
      |content| != 0
    }

    /**
     * `content()`: the text as a string of its code points; making the
     * string throws `IllegalArgumentException` when a character is not a
     * code point.
     */
    function Content(): (r: Result<seq<CodePoint>>)
      reads this
      ensures r.Ok? <==> forall k | 0 <= k < |content| :: 0 <= content[k].character < 0x11_0000
      ensures r.Ok? ==> r.value == Characters(content)
      ensures r.Err? ==> r.error == IllegalArgument
    {
      if forall k | 0 <= k < |content| :: 0 <= content[k].character < 0x11_0000
      then var entries := content; Ok(seq(|entries|, k requires 0 <= k < |entries| => entries[k].character as CodePoint))
      else Err(IllegalArgument)
    }

    /** `append(character)`: one entry more at the end, or `IllegalArgumentException` and no change. */
    method Append(c: int32) returns (r: Result<()>)
      requires Valid()
      modifies this
      ensures Valid()
      ensures c in font ==> r == Ok(()) && content == old(content) + [Entry(font[c], c)]
      ensures c !in font ==> r == Err(IllegalArgument) && content == old(content)
    {
      var model := ModelOf(font, c);
      if model.Err? {
        return Err(model.error);
      }
      content := content + [Entry(model.value, c)];
      return Ok(());
    }

    /**
     * `append(String)`: the entries for the code points, in order. A code
     * point the font does not know throws, leaving the entries added before
     * it in place.
     */
    method AppendText(text: seq<CodePoint>) returns (r: Result<()>)
      requires Valid()
      modifies this
      ensures Valid()
      ensures content == old(content) + Entries(font, text[..KnownPrefix(font, text)])
      ensures r == if KnownPrefix(font, text) == |text| then Ok(()) else Err(IllegalArgument)
    {
      var k := 0;
      while k < |text|
        invariant k <= KnownPrefix(font, text)
        invariant Valid()
        invariant content == old(content) + Entries(font, text[..k])
      {
        var model := ModelOf(font, text[k]);
        if model.Err? {
          return Err(model.error);
        }
        assert Entries(font, text[..k + 1]) == Entries(font, text[..k]) + [Entry(model.value, text[k])];
        content := content + [Entry(model.value, text[k])];
        k := k + 1;
      }
      assert text[..k] == text;
      return Ok(());
    }

    /** `delete()`: the last entry goes; on an empty text, `IndexOutOfBoundsException`. */
    method Delete() returns (r: Result<()>)
      requires Valid()
      modifies this
      ensures Valid()
      ensures |old(content)| > 0 ==> r == Ok(()) && content == old(content)[..|old(content)| - 1]
      ensures |old(content)| == 0 ==> r == Err(IndexOutOfBounds) && content == old(content)
    {
      if |content| == 0 {
        return Err(IndexOutOfBounds);
      }
      content := content[..|content| - 1];
      return Ok(());
    }

    /** `delete(index)`: the entry at `index` goes and the later ones move down. */
    method DeleteAt(index: int32) returns (r: Result<()>)
      requires Valid()
      modifies this
      ensures Valid()
      ensures 0 <= index < |old(content)| ==> r == Ok(()) && content == old(content)[..index] + old(content)[index + 1..]
      ensures !(0 <= index < |old(content)|) ==> r == Err(IndexOutOfBounds) && content == old(content)
    {
      if !(0 <= index as int < |content|) {
        return Err(IndexOutOfBounds);
      }
      content := content[..index] + content[index + 1..];
      return Ok(());
    }

    /**
     * `insert(index, character)`: the entry goes in at `index` and the later
     * ones move up. The model is looked up before the index is checked.
     */
    method Insert(index: int32, c: int32) returns (r: Result<()>)
      requires Valid()
      modifies this
      ensures Valid()
      ensures c !in font ==> r == Err(IllegalArgument) && content == old(content)
      ensures (c in font && 0 <= index <= |old(content)|) ==>
        r == Ok(()) && content == old(content)[..index] + [Entry(font[c], c)] + old(content)[index..]
      ensures (c in font && !(0 <= index <= |old(content)|)) ==>
        r == Err(IndexOutOfBounds) && content == old(content)
    {
      var model := ModelOf(font, c);
      if model.Err? {
        return Err(model.error);
      }
      if !(0 <= index as int <= |content|) {
        return Err(IndexOutOfBounds);
      }
      content := content[..index] + [Entry(model.value, c)] + content[index..];
      return Ok(());
    }

    /**
     * `delete(index, count)`: `subList(index, index + count).clear()`, the
     * end computed in int arithmetic. A start below zero or an end past the
     * text is `IndexOutOfBoundsException`; an end before the start is
     * `IllegalArgumentException`.
     */
    method DeleteRange(index: int32, count: int32) returns (r: Result<()>)
      requires Valid()
      modifies this
      ensures Valid()
      ensures var end := ToInt32(index + count);
        (index < 0 || end > |old(content)| ==> r == Err(IndexOutOfBounds) && content == old(content))
        && (0 <= index && end <= |old(content)| && index > end ==> r == Err(IllegalArgument) && content == old(content))
        && (0 <= index <= end <= |old(content)| ==> r == Ok(()) && content == old(content)[..index] + old(content)[end..])
    {
      var end := ToInt32(index + count);
      if index < 0 || end as int > |content| {
        return Err(IndexOutOfBounds);
      }
      if index > end {
        return Err(IllegalArgument);
      }
      content := content[..index] + content[end..];
      return Ok(());
    }

    /**
     * `insert(index, String)`: each code point in turn goes in at the same
     * `index`, so the string ends up back to front. An empty string changes
     * nothing, whatever the index. Otherwise a code point the font does not
     * know throws, keeping those inserted before it; a bad index throws at
     * the first insertion.
     */
    method InsertText(index: int32, text: seq<CodePoint>) returns (r: Result<()>)
      requires Valid()
      modifies this
      ensures Valid()
      ensures |text| == 0 ==> r == Ok(()) && content == old(content)
      ensures (|text| > 0 && text[0] !in font) ==> r == Err(IllegalArgument) && content == old(content)
      ensures (|text| > 0 && text[0] in font && !(0 <= index <= |old(content)|)) ==>
        r == Err(IndexOutOfBounds) && content == old(content)
      ensures (0 <= index <= |old(content)| ==>
        content == old(content)[..index] + Reversed(Entries(font, text[..KnownPrefix(font, text)])) + old(content)[index..]
        && r == if KnownPrefix(font, text) == |text| then Ok(()) else Err(IllegalArgument))
    {
      var k := 0;
      while k < |text|
        invariant k <= KnownPrefix(font, text)
        invariant Valid()
        invariant k > 0 ==> 0 <= index <= |old(content)|
        invariant (0 <= index <= |old(content)| ==>
          content == old(content)[..index] + Reversed(Entries(font, text[..k])) + old(content)[index..])
        invariant !(0 <= index <= |old(content)|) ==> content == old(content)
      {
        var model := ModelOf(font, text[k]);
        if model.Err? {
          return Err(model.error);
        }
        if !(0 <= index as int <= |content|) {
          return Err(IndexOutOfBounds);
        }
        InsertStep(font, old(content), index as int, text, k);
        content := content[..index] + [Entry(model.value, text[k])] + content[index..];
        k := k + 1;
      }
      assert text[..k] == text;
      return Ok(());
    }

    /** `setContent(text)`: the entries for the code points replace the text, up to the first unknown one. */
    method SetContent(text: seq<CodePoint>) returns (r: Result<()>)
      requires Valid()
      modifies this
      ensures Valid()
      ensures content == Entries(font, text[..KnownPrefix(font, text)])
      ensures r == if KnownPrefix(font, text) == |text| then Ok(()) else Err(IllegalArgument)
      ensures r.Ok? ==> Content() == Ok(text)
    {
      content := [];
      r := AppendText(text);
      if r.Ok? {
        assert text[..KnownPrefix(font, text)] == text;
        EntriesRoundTrip(font, text);
      }
    }
  }

  /** One more insertion at `index` puts the next code point in front of the reversed ones before it. */
  lemma InsertStep(font: map<int32, Model>, old_: seq<Entry>, index: nat, text: seq<CodePoint>, k: nat)
    requires index <= |old_|
    requires k < |text| && k < KnownPrefix(font, text)
    ensures var cur := old_[..index] + Reversed(Entries(font, text[..k])) + old_[index..];
      cur[..index] + [Entry(font[text[k]], text[k])] + cur[index..]
        == old_[..index] + Reversed(Entries(font, text[..k + 1])) + old_[index..]
  {
    var prev := Reversed(Entries(font, text[..k]));
    var cur := old_[..index] + prev + old_[index..];
    assert cur[..index] == old_[..index];
    assert cur[index..] == prev + old_[index..];
    assert Entries(font, text[..k + 1]) == Entries(font, text[..k]) + [Entry(font[text[k]], text[k])];
    ReversedSnoc(Entries(font, text[..k]), Entry(font[text[k]], text[k]));
  }

  /** Reversing a sequence with one more element at the end puts that element first. */
  lemma {:induction false} ReversedSnoc<T>(s: seq<T>, x: T)
    ensures Reversed(s + [x]) == [x] + Reversed(s)
    decreases |s|
  {
    if |s| > 0 {
      assert (s + [x])[1..] == s[1..] + [x];
      ReversedSnoc(s[1..], x);
    }
  }
}
