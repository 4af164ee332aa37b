/** The journal entry record and the text predicates the editor applies to it. */
module Entries {

  /** A journal entry. The Kotlin class is not part of this model; it is taken
      as a record of an id (0 means "not yet stored"), a title, a content and a
      date in epoch milliseconds. Ids and dates are unbounded integers here. */
  datatype Entry = Entry(id: int, title: string, content: string, date: int)

  /** `e.copy(title = t, content = c)`: the same entry with only its text replaced. */
  function WithText(e: Entry, t: string, c: string): (r: Entry)
    ensures r.id == e.id && r.date == e.date
    ensures r.title == t && r.content == c
  {
    e.(title := t, content := c)
  }

  /** Kotlin's `Char.isWhitespace` on the JVM: `Character.isWhitespace` or
      `Character.isSpaceChar`, written out as the set of code points they accept. */
  predicate IsWhitespace(ch: char)
    ensures ch == ' ' || ch == '\t' || ch == '\n' || ch == '\r' ==> IsWhitespace(ch)
    ensures IsWhitespace(ch) ==> !('0' <= ch <= '9' || 'a' <= ch <= 'z' || 'A' <= ch <= 'Z')
  {
    var n := ch as int;
    || (0x09 <= n <= 0x0D)
    || (0x1C <= n <= 0x20)
    || n == 0xA0
    || n == 0x1680
    || (0x2000 <= n <= 0x200A)
    || n == 0x2028 || n == 0x2029
    || n == 0x202F || n == 0x205F
    || n == 0x3000
  }

  /** `CharSequence.isBlank`: empty, or whitespace only. */
  predicate IsBlank(s: string)
  {
    forall i :: 0 <= i < |s| ==> IsWhitespace(s[i])
  }

  /** The editor's exit test: both fields blank. */
  predicate BothBlank(title: string, content: string)
  {
    IsBlank(title) && IsBlank(content)
  }

  /** Blankness is decided character by character: the empty string is
      blank, a one-character string is blank exactly when that character is
      whitespace, and a concatenation is blank exactly when both parts are. */
  lemma BlankLaws(a: string, b: string, c: char)
    ensures IsBlank("")
    ensures IsBlank([c]) <==> IsWhitespace(c)
    ensures IsBlank(a + b) <==> IsBlank(a) && IsBlank(b)
  {
    var ab := a + b;
    assert forall i :: 0 <= i < |a| ==> ab[i] == a[i];
    assert forall i :: 0 <= i < |b| ==> ab[|a| + i] == b[i];
    assert [c][0] == c;
  }

}
