/**
  `init_secrets`: the lines of the secrets file are read in order, each up to
  (and consuming) the next newline; a line is split at its first comma into a
  service name and an encoded secret, the secret is decoded, and the pair is
  upserted into the service map. Lines without a comma are skipped.

  The file is modelled by its contents. The map behind
  `upsert_decoded_base32_secret` is not part of this model: the method records
  the sequence of upserts it would receive.
 */
module Secrets {
  import opened SecretDecoding

  datatype Option<T> = None | Some(value: T)

  /** One accepted line: the text before its first comma and the text after it. */
  datatype Entry = Entry(service: string, encodedSecret: string)

  /** One call of `upsert_decoded_base32_secret`. */
  datatype Upsert = Upsert(service: string, secret: DecodedBase32Secret)

  /** `String::indexOf(c)`: the first index of `c` in `s`, or -1. */
  function IndexOf(s: string, c: char): (i: int)
    ensures i == -1 <==> c !in s
    ensures i != -1 ==> 0 <= i < |s| && s[i] == c && c !in s[..i]
    decreases |s|
  {
    if s == [] then -1
    else if s[0] == c then 0
    else
      var j := IndexOf(s[1..], c);
      if j == -1 then -1
      else
        assert s[1..][..j] == s[1..j + 1];
        j + 1
  }

  /**
    `readStringUntil('\n')` on the unread part `s` of the file: the line up
    to the first newline, and what remains after that newline.
   */
  function ReadLine(s: string): (r: (string, string))
    ensures '\n' !in r.0
    ensures '\n' in s ==> s == r.0 + ['\n'] + r.1
    ensures '\n' !in s ==> r.0 == s && r.1 == []
  {
    var i := IndexOf(s, '\n');
    if i == -1 then (s, [])
    else
      SplitAt(s, i);
      (s[..i], s[i + 1..])
  }

  lemma SplitAt(s: string, i: int)
    requires 0 <= i < |s|
    ensures s == s[..i] + [s[i]] + s[i + 1..]
  {
  }

  /** The lines `init_secrets` reads, while the file still has data available. */
  function Lines(contents: string): seq<string>
    decreases |contents|
  {
    if contents == [] then []
    else
      var r := ReadLine(contents);
      [r.0] + Lines(r.1)
  }

  /** No line read contains the newline that ended it. */
  lemma {:induction false} LinesHaveNoNewline(contents: string)
    ensures NoNewlines(Lines(contents))
    decreases |contents|
  {
    if contents != [] {
      var r := ReadLine(contents);
      LinesHaveNoNewline(r.1);
      assert Lines(contents) == [r.0] + Lines(r.1);
    }
  }

  /** Lines written back, each followed by a newline. */
  function JoinLines(ls: seq<string>): string
    decreases |ls|
  {
    if ls == [] then [] else ls[0] + ['\n'] + JoinLines(ls[1..])
  }

  /** The text is empty or its last character is a newline. */
  predicate EndsWithNewline(s: string) {
    s == [] || s[|s| - 1] == '\n'
  }

  /** No line of `ls` contains a newline. */
  predicate NoNewlines(ls: seq<string>) {
    forall k :: 0 <= k < |ls| ==> '\n' !in ls[k]
  }

  lemma JoinLinesCons(line: string, ls: seq<string>)
    ensures JoinLines([line] + ls) == line + ['\n'] + JoinLines(ls)
  {
  }

  /** The text with a final newline added when it lacks one. */
  function Terminated(s: string): string {
    if EndsWithNewline(s) then s else s + ['\n']
  }

  /**
    Reading the lines loses nothing but a missing final newline: joining them
    gives back the contents, newline-terminated.
   */
  lemma {:induction false} LinesRoundTrip(contents: string)
    ensures JoinLines(Lines(contents)) == Terminated(contents)
    decreases |contents|
  {
    if contents != [] {
      var r := ReadLine(contents);
      LinesUnfold(contents);
      JoinLinesCons(r.0, Lines(r.1));
      LinesRoundTrip(r.1);
      if '\n' !in contents {
        TerminatedWithoutNewline(contents);
      } else {
        TerminatedCons(r.0, r.1);
      }
    }
  }

  /** A non-empty text without a newline gets one appended. */
  lemma TerminatedWithoutNewline(s: string)
    requires s != [] && '\n' !in s
    ensures Terminated(s) == s + ['\n']
  {
    assert s[|s| - 1] in s;
  }

  /** Terminating a text after its first line terminates the rest. */
  lemma TerminatedCons(line: string, rest: string)
    ensures Terminated(line + ['\n'] + rest) == line + ['\n'] + Terminated(rest)
  {
    var s := line + ['\n'] + rest;
    if rest == [] {
      assert s == line + ['\n'];
    } else {
      assert s[|s| - 1] == rest[|rest| - 1];
      AppendAssoc(line + ['\n'], rest, ['\n']);
    }
  }

  /** Conversely, newline-free lines written out are read back unchanged. */
  lemma {:induction false} JoinLinesRoundTrip(ls: seq<string>)
    requires NoNewlines(ls)
    ensures Lines(JoinLines(ls)) == ls
    decreases |ls|
  {
    if ls != [] {
      var rest := JoinLines(ls[1..]);
      assert '\n' !in ls[0];
      ReadLineOfLine(ls[0], rest);
      LinesUnfold(JoinLines(ls));
      assert NoNewlines(ls[1..]) by {
        forall k | 0 <= k < |ls[1..]| ensures '\n' !in ls[1..][k] {
          assert ls[1..][k] == ls[k + 1];
        }
      }
      JoinLinesRoundTrip(ls[1..]);
      assert [ls[0]] + ls[1..] == ls;
    }
  }

  /** A newline-free line followed by a newline is read back as that line. */
  lemma ReadLineOfLine(line: string, rest: string)
    requires '\n' !in line
    ensures ReadLine(line + ['\n'] + rest) == (line, rest)
  {
    var s := line + ['\n'] + rest;
    assert s[..|line|] == line;
    IndexOfUnique(s, '\n', |line|);
    assert s[|line| + 1..] == rest;
  }

  /**
    The split of one line: nothing if it has no comma, otherwise the text
    before its first comma and all the text after it.
   */
  function ParseLine(line: string): (r: Option<Entry>)
    ensures r.None? <==> ',' !in line
    ensures r.Some? ==> ',' !in r.value.service
    ensures r.Some? ==> r.value.service + [','] + r.value.encodedSecret == line
  {
    var delimiterIndex := IndexOf(line, ',');
    if delimiterIndex == -1 then None
    else
      SplitAt(line, delimiterIndex);
      Some(Entry(line[..delimiterIndex], line[delimiterIndex + 1..]))
  }

  /** The entries of the comma-containing lines, in order. */
  function ParseLines(ls: seq<string>): (es: seq<Entry>)
    ensures |es| <= |ls|
    decreases |ls|
  {
    if ls == [] then [] else LineEntries(ls[0]) + ParseLines(ls[1..])
  }

  /** The entry of one line, if it has one: at most one, and none exactly without a comma. */
  function LineEntries(line: string): (es: seq<Entry>)
    ensures |es| <= 1
    ensures es == [] <==> ',' !in line
  {
    match ParseLine(line)
    case Some(e) => [e]
    case None => []
  }

  /** The entries of a secrets file. */
  function Entries(contents: string): seq<Entry> {
    ParseLines(Lines(contents))
  }

  /** How many of the lines contain a comma. */
  function CommaLines(ls: seq<string>): nat
    decreases |ls|
  {
    if ls == [] then 0 else (if ',' in ls[0] then 1 else 0) + CommaLines(ls[1..])
  }

  /** One entry per comma-containing line. */
  lemma {:induction false} ParseLinesCount(ls: seq<string>)
    ensures |ParseLines(ls)| == CommaLines(ls)
    decreases |ls|
  {
    if ls != [] {
      ParseLinesCount(ls[1..]);
    }
  }

  lemma {:induction false} ParseLinesAppend(a: seq<string>, b: seq<string>)
    ensures ParseLines(a + b) == ParseLines(a) + ParseLines(b)
    decreases |a|
  {
    if a == [] {
      assert a + b == b;
    } else {
      assert (a + b)[0] == a[0] && (a + b)[1..] == a[1..] + b;
      ParseLinesAppend(a[1..], b);
      AppendAssoc(LineEntries(a[0]), ParseLines(a[1..]), ParseLines(b));
    }
  }

  /** The first occurrence is the only index holding `c` with none before it. */
  lemma IndexOfUnique(s: string, c: char, i: int)
    requires 0 <= i < |s| && s[i] == c && c !in s[..i]
    ensures IndexOf(s, c) == i
  {
  }

  /** Reading a line from a text that extends a text with a newline. */
  lemma ReadLineAppend(a: string, b: string)
    requires '\n' in a
    ensures ReadLine(a + b) == (ReadLine(a).0, ReadLine(a).1 + b)
  {
    var j := IndexOf(a, '\n');
    assert (a + b)[..j] == a[..j];
    IndexOfUnique(a + b, '\n', j);
    assert (a + b)[j + 1..] == a[j + 1..] + b;
  }

  lemma LinesUnfold(s: string)
    requires s != []
    ensures Lines(s) == [ReadLine(s).0] + Lines(ReadLine(s).1)
  {
  }

  lemma {:induction false} LinesAppend(a: string, b: string)
    requires EndsWithNewline(a)
    ensures Lines(a + b) == Lines(a) + Lines(b)
    decreases |a|
  {
    if a == [] {
      assert a + b == b;
    } else {
      var r := ReadLine(a);
      EndsWithNewlineRest(a);
      ReadLineAppend(a, b);
      LinesAppend(r.1, b);
      LinesUnfold(a + b);
      LinesUnfold(a);
      AppendAssoc([r.0], Lines(r.1), Lines(b));
    }
  }

  /** Consuming one line of newline-terminated text leaves newline-terminated text. */
  lemma EndsWithNewlineRest(a: string)
    requires a != [] && EndsWithNewline(a)
    ensures '\n' in a && EndsWithNewline(ReadLine(a).1)
  {
  }

  /**
    Entries come in file order: those of a leading block of whole lines come
    first, followed by those of the rest of the file.
   */
  lemma EntriesAppend(a: string, b: string)
    requires EndsWithNewline(a)
    ensures Entries(a + b) == Entries(a) + Entries(b)
  {
    LinesAppend(a, b);
    ParseLinesAppend(Lines(a), Lines(b));
  }

  /**
    A single line yields one entry, split at its first comma, when it has a
    comma, and none otherwise.
   */
  lemma EntriesOfLine(line: string)
    requires '\n' !in line
    ensures ',' !in line ==> Entries(line + ['\n']) == []
    ensures ',' in line ==> |Entries(line + ['\n'])| == 1
    ensures ',' in line ==> ',' !in Entries(line + ['\n'])[0].service
    ensures ',' in line ==> Entries(line + ['\n'])[0].service + [','] + Entries(line + ['\n'])[0].encodedSecret == line
  {
    JoinLinesRoundTrip([line]);
    assert JoinLines([line]) == line + ['\n'] by {
      assert JoinLines([line][1..]) == [];
    }
    assert ParseLines([line]) == LineEntries(line) by {
      assert [line][1..] == [];
    }
  }

  /** The file has as many entries as comma-containing lines. */
  lemma EntriesCount(contents: string)
    ensures |Entries(contents)| == CommaLines(Lines(contents))
  {
    ParseLinesCount(Lines(contents));
  }

  /** The entries of a non-empty file: those of its first line, then the rest. */
  lemma EntriesUnfold(contents: string)
    requires contents != []
    ensures Entries(contents) == LineEntries(ReadLine(contents).0) + Entries(ReadLine(contents).1)
  {
  }

  /** The entry of one line, spelled out in terms of its first comma. */
  lemma LineEntriesSplit(line: string)
    ensures IndexOf(line, ',') == -1 ==> LineEntries(line) == []
    ensures IndexOf(line, ',') != -1 ==>
      LineEntries(line) == [Entry(line[..IndexOf(line, ',')], line[IndexOf(line, ',') + 1..])]
  {
  }

  lemma AppendAssoc<T>(a: seq<T>, b: seq<T>, c: seq<T>)
    ensures (a + b) + c == a + (b + c)
  {
  }

  /** What `init_secrets` upserts for one entry. */
  function UpsertOf(fromBase32: seq<byte> -> Base32Output, e: Entry): Upsert {
    Upsert(e.service, Decoded(fromBase32, e.encodedSecret))
  }

  /**
    The read loop of `init_secrets` on an opened file: one upsert per
    comma-containing line, in file order, each with the line's service name
    and its decoded secret.
   */
  method InitSecrets(contents: string, fromBase32: seq<byte> -> Base32Output)
    returns (upserts: seq<Upsert>)
    ensures |upserts| == |Entries(contents)|
    ensures forall k :: 0 <= k < |upserts| ==> upserts[k] == UpsertOf(fromBase32, Entries(contents)[k])
  {
    var rest := contents;
    ghost var done: seq<Entry> := [];
    upserts := [];
    while rest != []
      invariant Entries(contents) == done + Entries(rest)
      invariant |upserts| == |done|
      invariant forall k :: 0 <= k < |upserts| ==> upserts[k] == UpsertOf(fromBase32, done[k])
      decreases |rest|
    {
      var (line, rest') := ReadLine(rest);
      EntriesUnfold(rest);
      AppendAssoc(done, LineEntries(line), Entries(rest'));
      LineEntriesSplit(line);
      ghost var doneBefore := done;
      done := done + LineEntries(line);
      var delimiterIndex := IndexOf(line, ',');
      if delimiterIndex != -1 {
        var service := line[..delimiterIndex];
        var encodedBase32Secret := line[delimiterIndex + 1..];
        var decoded := DecodeEncodedBase32Secret(encodedBase32Secret, fromBase32);
        upserts := upserts + [Upsert(service, decoded)];
        assert done == doneBefore + [Entry(service, encodedBase32Secret)];
      }
      rest := rest';
    }
  }
}
