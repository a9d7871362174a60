/** The loading of `privateKeys` and `Recepient` (skw/config.js): the text of a file is split on
    "\n", every line is trimmed, and empty lines are dropped. Reading the file is not modelled; the
    text is the input. */
module LineList {
  import opened Text

  /** `lines.map(k => k.trim())`. */
  function TrimAll(lines: seq<string>): (r: seq<string>)
    ensures |r| == |lines|
    ensures forall k :: 0 <= k < |r| ==> r[k] == Trim(lines[k])
  {
    if lines == [] then [] else [Trim(lines[0])] + TrimAll(lines[1..])
  }

  /** `xs.filter(k => k.length > 0)`. */
  function KeepNonEmpty(xs: seq<string>): (r: seq<string>)
    ensures |r| <= |xs|
    ensures forall k :: 0 <= k < |r| ==> r[k] != [] && r[k] in xs
    ensures forall x :: x in xs && x != [] ==> x in r
  {
    if xs == [] then []
    else
      var rest := KeepNonEmpty(xs[1..]);
      assert forall x :: x in xs[1..] ==> x in xs;
      if xs[0] != [] then [xs[0]] + rest else rest
  }

  /** The entries of a line-list file. */
  function ParseLines(text: string): seq<string> {
    KeepNonEmpty(TrimAll(Split(text, '\n')))
  }

  /** Every entry is non-empty, already trimmed and free of line breaks, and there are no more
      entries than lines. */
  lemma EntriesAreClean(text: string)
    ensures var entries := ParseLines(text);
      |entries| <= |Split(text, '\n')| &&
      forall k :: 0 <= k < |entries| ==> entries[k] != [] && IsTrimmed(entries[k]) && '\n' !in entries[k]
  {
    var entries := ParseLines(text);
    forall k | 0 <= k < |entries| ensures IsTrimmed(entries[k]) && '\n' !in entries[k] {
      LineClean(text, entries[k]);
    }
  }

  lemma LineClean(text: string, e: string)
    requires e in TrimAll(Split(text, '\n'))
    ensures IsTrimmed(e) && '\n' !in e
  {
    var lines := Split(text, '\n');
    var trimmed := TrimAll(lines);
    var j :| 0 <= j < |trimmed| && trimmed[j] == e;
    assert e == Trim(lines[j]);
    assert '\n' !in lines[j];
  }

  lemma {:induction false} TrimAllAppend(xs: seq<string>, ys: seq<string>)
    ensures TrimAll(xs + ys) == TrimAll(xs) + TrimAll(ys)
  {
    if xs == [] {
      assert xs + ys == ys;
    } else {
      assert (xs + ys)[1..] == xs[1..] + ys;
      TrimAllAppend(xs[1..], ys);
    }
  }

  lemma {:induction false} KeepNonEmptyAppend(xs: seq<string>, ys: seq<string>)
    ensures KeepNonEmpty(xs + ys) == KeepNonEmpty(xs) + KeepNonEmpty(ys)
  {
    if xs == [] {
      assert xs + ys == ys;
    } else {
      assert (xs + ys)[1..] == xs[1..] + ys;
      KeepNonEmptyAppend(xs[1..], ys);
    }
  }

  /** The entries of two texts joined by a line break are those of the first followed by those of
      the second: entries keep the order of their lines. */
  lemma ParseLinesConcat(a: string, b: string)
    ensures ParseLines(a + "\n" + b) == ParseLines(a) + ParseLines(b)
  {
    SplitAround(a, b, '\n');
    TrimAllAppend(Split(a, '\n'), Split(b, '\n'));
    KeepNonEmptyAppend(TrimAll(Split(a, '\n')), TrimAll(Split(b, '\n')));
  }

  /** A single line is one entry, its trimmed text, unless it is blank. */
  lemma ParseSingleLine(line: string)
    requires '\n' !in line
    ensures ParseLines(line) == if AllWhitespace(line) then [] else [Trim(line)]
  {
    SplitWithoutSeparator(line, '\n');
  }

  lemma {:induction false} JoinChars(parts: seq<string>, sep: char, c: char)
    requires c in Join(parts, sep) && c != sep
    ensures exists k :: 0 <= k < |parts| && c in parts[k]
  {
    if |parts| > 1 {
      var rest := Join(parts[1..], sep);
      assert Join(parts, sep) == parts[0] + [sep] + rest;
      if c !in parts[0] {
        JoinChars(parts[1..], sep, c);
        var k :| 0 <= k < |parts[1..]| && c in parts[1..][k];
        assert c in parts[k + 1];
      }
    }
  }

  /** Blank text yields no entries. */
  lemma BlankHasNoEntries(text: string)
    requires AllWhitespace(text)
    ensures ParseLines(text) == []
  {
    var lines := Split(text, '\n');
    var trimmed := TrimAll(lines);
    forall k | 0 <= k < |trimmed| ensures trimmed[k] == [] {
      BlankLine(text, k);
    }
    KeepNoneOfEmpty(trimmed);
  }

  lemma BlankLine(text: string, k: nat)
    requires AllWhitespace(text) && k < |Split(text, '\n')|
    ensures AllWhitespace(Split(text, '\n')[k])
  {
    var line := Split(text, '\n')[k];
    forall j | 0 <= j < |line| ensures IsWhitespace(line[j]) {
      assert line[j] in line;
      SplitChars(text, '\n', k, line[j]);
    }
  }

  lemma {:induction false} KeepNoneOfEmpty(xs: seq<string>)
    requires forall k :: 0 <= k < |xs| ==> xs[k] == []
    ensures KeepNonEmpty(xs) == []
  {
    if xs != [] {
      KeepNoneOfEmpty(xs[1..]);
    }
  }

  /** Text with a character other than whitespace yields an entry. */
  lemma NonBlankHasEntries(text: string, i: nat)
    requires i < |text| && !IsWhitespace(text[i])
    ensures ParseLines(text) != []
  {
    var lines := Split(text, '\n');
    var c := text[i];
    JoinSplit(text, '\n');
    assert c in Join(lines, '\n');
    JoinChars(lines, '\n', c);
    var k :| 0 <= k < |lines| && c in lines[k];
    var j :| 0 <= j < |lines[k]| && lines[k][j] == c;
    assert !AllWhitespace(lines[k]);
    var trimmed := TrimAll(lines);
    assert trimmed[k] != [] && trimmed[k] in trimmed;
  }

  /** A file yields no entries exactly when it holds nothing but whitespace. */
  lemma BlankTextHasNoEntries(text: string)
    ensures ParseLines(text) == [] <==> AllWhitespace(text)
  {
    if AllWhitespace(text) {
      BlankHasNoEntries(text);
    } else {
      var i :| 0 <= i < |text| && !IsWhitespace(text[i]);
      NonBlankHasEntries(text, i);
    }
  }

  lemma TrimAllTrimmed(xs: seq<string>)
    requires forall k :: 0 <= k < |xs| ==> IsTrimmed(xs[k])
    ensures TrimAll(xs) == xs
  {
    var r := TrimAll(xs);
    assert forall k :: 0 <= k < |xs| ==> r[k] == xs[k];
  }

  /** Writing the entries back one per line and loading them again gives the same entries. */
  lemma ParseJoin(entries: seq<string>)
    requires forall k :: 0 <= k < |entries| ==> entries[k] != [] && IsTrimmed(entries[k]) && '\n' !in entries[k]
    ensures ParseLines(Join(entries, '\n')) == entries
  {
    if entries == [] {
      BlankHasNoEntries([]);
    } else {
      SplitJoin(entries, '\n');
      TrimAllTrimmed(entries);
      KeepAll(entries);
    }
  }

  lemma {:induction false} KeepAll(xs: seq<string>)
    requires forall k :: 0 <= k < |xs| ==> xs[k] != []
    ensures KeepNonEmpty(xs) == xs
  {
    if xs != [] {
      KeepAll(xs[1..]);
      assert xs == [xs[0]] + xs[1..];
    }
  }

  /** Loading is a round trip: the entries of a file, written back one per line, load as
      themselves. */
  lemma ReloadIsStable(text: string)
    ensures ParseLines(Join(ParseLines(text), '\n')) == ParseLines(text)
  {
    EntriesAreClean(text);
    ParseJoin(ParseLines(text));
  }
}
