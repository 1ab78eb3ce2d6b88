/** A contact as the list shows it, and the text it is rendered to. */
module Contacts {

  datatype Option<T> = None | Some(value: T)

  /** A display name and the contact's normalised phone numbers, in the order
      the provider returned them, duplicates kept. */
  datatype Contact = Contact(name: string, phones: seq<string>)

  /** Every line followed by a newline, in order. */
  function JoinLines(lines: seq<string>): string
  {
    if lines == [] then "" else lines[0] + "\n" + JoinLines(lines[1..])
  }

  /** The text of a contact: its name on the first line, then one phone
      number per line, every line ended by a newline. */
  function Rendered(c: Contact): string
  {
    c.name + "\n" + JoinLines(c.phones)
  }

  lemma {:induction false} JoinLinesAppend(lines: seq<string>, line: string)
    ensures JoinLines(lines + [line]) == JoinLines(lines) + line + "\n"
  {
    if lines == [] {
      assert lines + [line] == [line];
      assert [line][1..] == [];
    } else {
      assert (lines + [line])[0] == lines[0];
      assert (lines + [line])[1..] == lines[1..] + [line];
      JoinLinesAppend(lines[1..], line);
    }
  }

  /** Builds the text the way a string builder does: start from the name,
      append a newline, then append each number and a newline. */
  method ToString(c: Contact) returns (s: string)
    ensures s == Rendered(c)
  {
    var builder := c.name;
    builder := builder + "\n";
    for i := 0 to |c.phones|
      invariant builder == c.name + "\n" + JoinLines(c.phones[..i])
    {
      assert c.phones[..i + 1] == c.phones[..i] + [c.phones[i]];
      JoinLinesAppend(c.phones[..i], c.phones[i]);
      builder := builder + c.phones[i] + "\n";
    }
    assert c.phones[..|c.phones|] == c.phones;
    s := builder;
  }

  // ---------------------------------------------------------------------------
  // Size of the rendered text

  /** The number of newline characters in a string. */
  function Newlines(s: string): nat
  {
    multiset(s)['\n']
  }

  /** The total number of characters in some lines, newlines not counted. */
  function TotalLength(lines: seq<string>): nat
  {
    if lines == [] then 0 else |lines[0]| + TotalLength(lines[1..])
  }

  /** The total number of newline characters inside some lines. */
  function NewlinesWithin(lines: seq<string>): nat
  {
    if lines == [] then 0 else Newlines(lines[0]) + NewlinesWithin(lines[1..])
  }

  lemma {:induction false} JoinLinesSize(lines: seq<string>)
    ensures |JoinLines(lines)| == TotalLength(lines) + |lines|
    ensures Newlines(JoinLines(lines)) == NewlinesWithin(lines) + |lines|
  {
    if lines != [] {
      JoinLinesSize(lines[1..]);
      assert JoinLines(lines) == lines[0] + "\n" + JoinLines(lines[1..]);
      assert multiset(JoinLines(lines))
          == multiset(lines[0]) + multiset("\n") + multiset(JoinLines(lines[1..]));
    }
  }

  /** The text starts with the name and a newline, and adds exactly one newline
      per phone number after it: its length is |name| + 1 + the sum of
      (|p| + 1) over the phones. */
  lemma RenderedSize(c: Contact)
    ensures |Rendered(c)| == |c.name| + 1 + TotalLength(c.phones) + |c.phones|
    ensures Rendered(c)[..|c.name|] == c.name && Rendered(c)[|c.name|] == '\n'
    ensures Newlines(Rendered(c)) == Newlines(c.name) + 1 + NewlinesWithin(c.phones) + |c.phones|
  {
    JoinLinesSize(c.phones);
    assert multiset(Rendered(c)) == multiset(c.name) + multiset("\n") + multiset(JoinLines(c.phones));
  }

  // ---------------------------------------------------------------------------
  // Reading the text back: rendering loses nothing when no field holds a newline

  /** The index of the first newline in s, or |s| when there is none. */
  function LineEnd(s: string): (k: nat)
    ensures k <= |s|
    ensures forall j :: 0 <= j < k ==> s[j] != '\n'
    ensures k < |s| ==> s[k] == '\n'
  {
    if s == [] || s[0] == '\n' then 0 else 1 + LineEnd(s[1..])
  }

  /** Splits a text made of newline-terminated lines into those lines; None
      when the text does not end with a newline. */
  function SplitLines(s: string): Option<seq<string>>
    decreases |s|
  {
    if s == [] then Some([])
    else
      var k := LineEnd(s);
      if k == |s| then None
      else
        match SplitLines(s[k + 1..])
        case None => None
        case Some(rest) => Some([s[..k]] + rest)
  }

  /** Reads a rendered contact back: the first line is the name, every further
      line a phone number. */
  function Parse(s: string): Option<Contact>
  {
    match SplitLines(s)
    case None => None
    case Some(lines) => if lines == [] then None else Some(Contact(lines[0], lines[1..]))
  }

  predicate SingleLine(s: string)
  {
    '\n' !in s
  }

  predicate NoLineBreaks(c: Contact)
  {
    SingleLine(c.name) && forall p :: p in c.phones ==> SingleLine(p)
  }

  lemma {:induction false} SplitJoinLines(lines: seq<string>)
    requires forall l :: l in lines ==> SingleLine(l)
    ensures SplitLines(JoinLines(lines)) == Some(lines)
  {
    if lines != [] {
      var s := JoinLines(lines);
      var n := |lines[0]|;
      assert s == lines[0] + "\n" + JoinLines(lines[1..]);
      assert s[..n] == lines[0];
      assert s[n] == '\n';
      assert SingleLine(lines[0]);
      forall j | 0 <= j < n
        ensures s[j] != '\n'
      {
        assert s[j] == lines[0][j] && lines[0][j] in lines[0];
      }
      assert LineEnd(s) == n;
      assert s[n + 1..] == JoinLines(lines[1..]);
      assert forall l :: l in lines[1..] ==> l in lines;
      SplitJoinLines(lines[1..]);
      assert [lines[0]] + lines[1..] == lines;
    }
  }

  lemma {:induction false} JoinSplitLines(s: string, lines: seq<string>)
    requires SplitLines(s) == Some(lines)
    ensures JoinLines(lines) == s
    ensures forall l :: l in lines ==> SingleLine(l)
    decreases |s|
  {
    if s != [] {
      var k := LineEnd(s);
      var rest := SplitLines(s[k + 1..]).value;
      assert lines == [s[..k]] + rest;
      JoinSplitLines(s[k + 1..], rest);
      assert lines[0] == s[..k] && lines[1..] == rest;
      assert s == s[..k] + "\n" + s[k + 1..];
      assert forall j :: 0 <= j < k ==> s[..k][j] != '\n';
      assert SingleLine(s[..k]);
    }
  }

  /** Parsing the text of a contact whose fields hold no newline gives the
      contact back. */
  lemma ParseRendered(c: Contact)
    requires NoLineBreaks(c)
    ensures Parse(Rendered(c)) == Some(c)
  {
    var lines := [c.name] + c.phones;
    assert lines[1..] == c.phones;
    assert Rendered(c) == JoinLines(lines);
    SplitJoinLines(lines);
  }

  /** Whatever text parses to a contact is exactly that contact's rendering,
      and its fields hold no newline. */
  lemma RenderedParse(s: string, c: Contact)
    requires Parse(s) == Some(c)
    ensures Rendered(c) == s
    ensures NoLineBreaks(c)
  {
    var lines := SplitLines(s).value;
    JoinSplitLines(s, lines);
    assert lines == [c.name] + c.phones;
    assert lines[1..] == c.phones;
    assert JoinLines(lines) == c.name + "\n" + JoinLines(c.phones);
  }
}
