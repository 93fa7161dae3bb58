/** Post-processing of recogniser output (`AudioProcessor.process_text` and
    `AudioProcessor.process_transcription_segments` in audio_capture.py).
    Each operation is a specification function, a method that runs the same
    loop as the source and is proved equal to it, and lemmas stating what the
    result means. */
module Transcript {
  import opened Common
  import opened PyText

  /** The endings `str.endswith(('!', '?', '.'))` accepts. */
  predicate IsTerminator(c: char) {
    c == '.' || c == '!' || c == '?'
  }

  /** A finished sentence: non-empty, no leading whitespace, terminated, and
      with no period before its last character. */
  predicate IsSentence(s: string) {
    && s != []
    && !IsSpace(s[0])
    && IsTerminator(s[|s| - 1])
    && forall j :: 0 <= j < |s| - 1 ==> s[j] != '.'
  }

  /** `cleaned[0].upper() + cleaned[1:] if len(cleaned) > 1 else cleaned.upper()`:
      the first character is uppercased and the rest is kept, so a
      one-character fragment is uppercased entirely. */
  function Capitalize(s: string): (r: string)
    requires s != []
    ensures |r| == |s| && r[0] == Upper(s[0]) && r[1..] == s[1..]
  {
    if |s| > 1 then [Upper(s[0])] + s[1..] else UpperStr(s)
  }

  /** Appends a period unless the fragment already ends in `.`, `!` or `?`. */
  function Terminate(s: string): (r: string)
    requires s != []
    ensures |s| <= |r| <= |s| + 1 && r[..|s|] == s
    ensures IsTerminator(r[|r| - 1])
    ensures |r| == |s| <==> IsTerminator(s[|s| - 1])
    ensures |r| == |s| + 1 ==> r[|s|] == '.'
  {
    if IsTerminator(s[|s| - 1]) then s else s + "."
  }

  /** One kept fragment: stripped, capitalised, terminated. */
  function CleanFragment(part: string): string
    requires Strip(part) != []
  {
    Terminate(Capitalize(Strip(part)))
  }

  /** The cleaned fragment is the stripped part with its first character
      uppercased, the rest kept, and a period added only when the part did
      not already end in `.`, `!` or `?`. */
  lemma CleanFragmentShape(part: string)
    requires Strip(part) != []
    ensures var c, r := Strip(part), CleanFragment(part);
      && |c| <= |r| <= |c| + 1
      && r[0] == Upper(c[0]) && r[1..|c|] == c[1..]
      && IsTerminator(r[|r| - 1])
      && (|r| == |c| + 1 <==> !IsTerminator(c[|c| - 1]))
      && (|r| == |c| + 1 ==> r[|c|] == '.')
  {
    var c := Strip(part);
    var d := Capitalize(c);
    assert d[1..] == c[1..];
    var r := Terminate(d);
    assert r[..|d|] == d;
    assert r[1..|c|] == d[1..];
  }

  /** The `sentences` list the loop of `process_text` builds from `parts`:
      blank parts are skipped, the others cleaned, in order. */
  function Sentences(parts: seq<string>): (out: seq<string>)
    ensures |out| <= |parts|
  {
    if parts == [] then []
    else Sentences(parts[..|parts| - 1]) + Kept(parts[|parts| - 1])
  }

  /** What one part contributes: nothing if blank, else its cleaned form. */
  function Kept(part: string): seq<string> {
    if Strip(part) == [] then [] else [CleanFragment(part)]
  }

  /** `process_text(text)`. */
  function ProcessedText(text: string): (r: string)
    ensures text == [] ==> r == []
  {
    if text == [] then text
    else Join(Sentences(Split(Replace(text, ". ", "."), '.')), ' ')
  }

  /** The loop of `process_text`, proved to compute `ProcessedText`. */
  method ProcessText(text: string) returns (r: string)
    ensures r == ProcessedText(text)
  {
    if text == [] {
      return text;
    }
    var sentences: seq<string> := [];
    var parts := Split(Replace(text, ". ", "."), '.');
    for i := 0 to |parts|
      invariant sentences == Sentences(parts[..i])
    {
      var part := parts[i];
      SentencesStep(parts, i);
      if Strip(part) == [] {
        continue;
      }
      var cleaned := Strip(part);
      if cleaned != [] {
        cleaned := if |cleaned| > 1 then [Upper(cleaned[0])] + cleaned[1..] else UpperStr(cleaned);
      }
      assert cleaned == Capitalize(Strip(part));
      if cleaned != [] && !IsTerminator(cleaned[|cleaned| - 1]) {
        cleaned := cleaned + ".";
      }
      assert cleaned == CleanFragment(part);
      sentences := sentences + [cleaned];
    }
    assert parts[..|parts|] == parts;
    r := Join(sentences, ' ');
  }

  /** One more part adds what that part keeps. */
  lemma SentencesStep(parts: seq<string>, i: nat)
    requires i < |parts|
    ensures Sentences(parts[..i + 1]) == Sentences(parts[..i]) + Kept(parts[i])
  {
    assert parts[..i + 1][..i] == parts[..i];
  }

  // ---------------------------------------------------------------------
  // What `process_text` promises

  /** A cleaned fragment of a period-free part is a finished sentence. */
  lemma CleanFragmentIsSentence(part: string)
    requires Strip(part) != [] && Free(part, '.')
    ensures IsSentence(CleanFragment(part))
  {
    var c := Strip(part);
    StripKeepsFree(part, '.');
    StripEnds(part);
    UpperNotSpace(c[0]);
    CleanFragmentShape(part);
    var r := CleanFragment(part);
    forall j | 0 <= j < |r| - 1 ensures r[j] != '.' {
      if j > 0 {
        assert r[j] == r[1..|c|][j - 1] == c[j];
      }
    }
  }

  /** What `f` makes of each part, concatenated in the order of the parts. */
  function Gather(f: string -> seq<string>, parts: seq<string>): seq<string> {
    if parts == [] then [] else Gather(f, parts[..|parts| - 1]) + f(parts[|parts| - 1])
  }

  /** Gathering distributes over concatenation. */
  lemma {:induction false} GatherAppend(f: string -> seq<string>, a: seq<string>, b: seq<string>)
    ensures Gather(f, a + b) == Gather(f, a) + Gather(f, b)
    decreases |b|
  {
    if b == [] {
      assert a + b == a;
    } else {
      var b' := b[..|b| - 1];
      GatherAppend(f, a, b');
      assert (a + b)[..|a + b| - 1] == a + b' && (a + b)[|a + b| - 1] == b[|b| - 1];
      assert Gather(f, a + b) == Gather(f, a + b') + f(b[|b| - 1]);
    }
  }

  /** The sentence list is what `Kept` makes of each part. */
  lemma {:induction false} SentencesIsGather(parts: seq<string>)
    ensures Sentences(parts) == Gather(Kept, parts)
  {
    if parts != [] {
      SentencesIsGather(parts[..|parts| - 1]);
    }
  }

  /** Keeping and cleaning distributes over concatenation: sentences come
      out in the order their parts went in. */
  lemma SentencesAppend(a: seq<string>, b: seq<string>)
    ensures Sentences(a + b) == Sentences(a) + Sentences(b)
  {
    GatherAppend(Kept, a, b);
    SentencesIsGather(a + b);
    SentencesIsGather(a);
    SentencesIsGather(b);
  }

  /** No sentence comes out exactly when every part is blank. */
  lemma {:induction false} SentencesEmpty(parts: seq<string>)
    ensures Sentences(parts) == [] <==> forall k :: 0 <= k < |parts| ==> Strip(parts[k]) == []
  {
    if parts != [] {
      var init := parts[..|parts| - 1];
      SentencesEmpty(init);
      assert forall k :: 0 <= k < |init| ==> init[k] == parts[k];
    }
  }

  /** Every output of the loop over period-free parts is a finished sentence. */
  lemma {:induction false} SentencesAreSentences(parts: seq<string>)
    requires forall k :: 0 <= k < |parts| ==> Free(parts[k], '.')
    ensures forall k :: 0 <= k < |Sentences(parts)| ==> IsSentence(Sentences(parts)[k])
  {
    if parts != [] {
      var init := parts[..|parts| - 1];
      SentencesAreSentences(init);
      var last := parts[|parts| - 1];
      if Strip(last) != [] {
        CleanFragmentIsSentence(last);
      }
    }
  }

  /** Parts that strip to the same text yield the same sentences. */
  lemma {:induction false} SentencesOnlySeeStripped(ps: seq<string>, qs: seq<string>)
    requires |ps| == |qs|
    requires forall k :: 0 <= k < |ps| ==> Strip(ps[k]) == Strip(qs[k])
    ensures Sentences(ps) == Sentences(qs)
  {
    if ps != [] {
      SentencesOnlySeeStripped(ps[..|ps| - 1], qs[..|qs| - 1]);
    }
  }

  /** How the pieces of a split change when `". "` is first replaced by `"."`:
      the first piece is the same, and each later piece either is the same or
      lost the one space that followed its period. */
  predicate PieceMatch(p: string, q: string) {
    p == q || p == [' '] + q
  }

  /** Two lists of pieces correspond: same length, same first piece, and
      each later piece matches. */
  predicate PiecesMatch(a: seq<string>, b: seq<string>) {
    && |a| == |b| && a != [] && a[0] == b[0]
    && forall k {:trigger PieceMatch(a[k], b[k])} :: 1 <= k < |a| ==> PieceMatch(a[k], b[k])
  }

  /** The pieces of `t` split before and after the rewrite correspond. */
  predicate SplitsMatch(t: string) {
    PiecesMatch(Split(t, '.'), Split(Replace(t, ". ", "."), '.'))
  }

  /** Prefixing an empty piece to both lists, and a space to the first piece
      of the original, keeps them corresponding. */
  lemma PiecesMatchAfterDotSpace(a: seq<string>, b: seq<string>)
    requires PiecesMatch(a, b)
    ensures PiecesMatch([[]] + ([[' '] + a[0]] + a[1..]), [[]] + b)
  {
    var sa, sb := [[]] + ([[' '] + a[0]] + a[1..]), [[]] + b;
    forall k | 1 <= k < |sa| ensures PieceMatch(sa[k], sb[k]) {
      if k == 1 {
        assert sa[1] == [' '] + a[0] && sb[1] == b[0] == a[0];
      } else {
        assert PieceMatch(a[k - 1], b[k - 1]);
        assert sa[k] == a[k - 1] && sb[k] == b[k - 1];
      }
    }
  }

  lemma {:induction false} SplitAfterReplace(t: string)
    ensures SplitsMatch(t)
    decreases |t|
  {
    if t == [] {
      assert Replace(t, ". ", ".") == [];
    } else if 2 <= |t| && t[..2] == ". " {
      SplitAfterReplace(t[2..]);
      SplitsMatchAfterDotSpace(t[2..]);
      assert ". " + t[2..] == t;
    } else {
      SplitAfterReplace(t[1..]);
      SplitsMatchAfterOther(t[0], t[1..]);
      assert [t[0]] + t[1..] == t;
    }
  }

  /** The rewrite turns a leading `". "` into `"."`. */
  lemma ReplaceAtDotSpace(u: string)
    ensures Replace(". " + u, ". ", ".") == ['.'] + Replace(u, ". ", ".")
  {
    var t := ". " + u;
    assert t[..2] == ". " && t[2..] == u;
  }

  /** Any other first character is kept by the rewrite. */
  lemma ReplaceElsewhere(c: char, u: string)
    requires !(c == '.' && u != [] && u[0] == ' ')
    ensures Replace([c] + u, ". ", ".") == [c] + Replace(u, ". ", ".")
  {
    var t := [c] + u;
    assert t[1..] == u && t[0] == c;
    assert !(2 <= |t| && t[..2] == ". ");
  }

  /** The step for a string starting with `". "`, which the rewrite shortens. */
  lemma SplitsMatchAfterDotSpace(u: string)
    requires SplitsMatch(u)
    ensures SplitsMatch(". " + u)
  {
    var t := ". " + u;
    var ru := Replace(u, ". ", ".");
    var a, b := Split(u, '.'), Split(ru, '.');
    assert Split(Replace(t, ". ", "."), '.') == [[]] + b by {
      ReplaceAtDotSpace(u);
      SplitCons('.', ru, '.');
    }
    assert Split(t, '.') == [[]] + ([[' '] + a[0]] + a[1..]) by {
      assert t == ['.'] + ([' '] + u);
      SplitCons('.', [' '] + u, '.');
      SplitCons(' ', u, '.');
    }
    PiecesMatchAfterDotSpace(a, b);
  }

  /** The step for any other first character, which the rewrite keeps. */
  lemma SplitsMatchAfterOther(c: char, u: string)
    requires SplitsMatch(u)
    requires !(c == '.' && u != [] && u[0] == ' ')
    ensures SplitsMatch([c] + u)
  {
    var t := [c] + u;
    var ru := Replace(u, ". ", ".");
    ReplaceElsewhere(c, u);
    SplitCons(c, ru, '.');
    SplitCons(c, u, '.');
  }

  /** The replacement of `". "` by `"."` never changes the result: the space
      it removes starts a part, and stripping that part removes it anyway. */
  lemma ReplaceIsRedundant(text: string)
    requires text != []
    ensures ProcessedText(text) == Join(Sentences(Split(text, '.')), ' ')
  {
    var a, b := Split(text, '.'), Split(Replace(text, ". ", "."), '.');
    SplitAfterReplace(text);
    forall k | 0 <= k < |a| ensures Strip(a[k]) == Strip(b[k]) {
      if a[k] != b[k] {
        assert k >= 1 && PieceMatch(a[k], b[k]);
        StripSkipsLeadingSpace(' ', b[k]);
      }
    }
    SentencesOnlySeeStripped(a, b);
  }

  /** Joining non-empty pieces: the result starts with the first piece's first
      character and ends with the last piece's last character. */
  lemma {:induction false} JoinEnds(parts: seq<string>, sep: char)
    requires parts != [] && forall k :: 0 <= k < |parts| ==> parts[k] != []
    ensures var s := Join(parts, sep);
      s != [] && s[0] == parts[0][0] && s[|s| - 1] == parts[|parts| - 1][|parts[|parts| - 1]| - 1]
  {
    if |parts| > 1 {
      JoinEnds(parts[1..], sep);
    }
  }

  /** A non-empty result of `process_text` starts with a non-space character
      and ends in `.`, `!` or `?`; it is the single-space join of finished
      sentences. */
  lemma ProcessedTextIsSentences(text: string)
    requires text != []
    ensures var out := Sentences(Split(text, '.'));
      && ProcessedText(text) == Join(out, ' ')
      && forall k :: 0 <= k < |out| ==> IsSentence(out[k])
    ensures var r := ProcessedText(text);
      r != [] ==> !IsSpace(r[0]) && IsTerminator(r[|r| - 1])
  {
    var out := Sentences(Split(text, '.'));
    ReplaceIsRedundant(text);
    SentencesAreSentences(Split(text, '.'));
    if out != [] {
      JoinEnds(out, ' ');
    }
  }

  // ---------------------------------------------------------------------
  // Processing twice is processing once

  /** A sentence as `process_text` emits it: finished, its first character
      already uppercase, and a closing period only after a character that is
      neither whitespace nor `.`, `!` or `?`. */
  predicate IsEmitted(s: string) {
    && IsSentence(s)
    && Upper(s[0]) == s[0]
    && (s[|s| - 1] == '.' ==> |s| >= 2 && !IsSpace(s[|s| - 2]) && !IsTerminator(s[|s| - 2]))
  }

  /** A piece that another pass only terminates: non-empty, unpadded, and its
      first character already uppercase. */
  predicate IsClean(p: string) {
    p != [] && !IsSpace(p[0]) && !IsSpace(p[|p| - 1]) && Upper(p[0]) == p[0]
  }

  /** `t` comes back unchanged from another pass: its first `.`-piece is
      clean and the sentences of its pieces join to `t` again. */
  predicate Reprocesses(t: string) {
    var x := Split(t, '.');
    IsClean(x[0]) && Join(Sentences(x), ' ') == t
  }

  /** A cleaned fragment of a period-free part is an emitted sentence. */
  lemma CleanFragmentIsEmitted(part: string)
    requires Strip(part) != [] && Free(part, '.')
    ensures IsEmitted(CleanFragment(part))
  {
    CleanFragmentIsSentence(part);
    var c := Strip(part);
    StripKeepsFree(part, '.');
    StripEnds(part);
    UpperNotSpace(c[0]);
    UpperFixes(c[0]);
    CleanFragmentShape(part);
    var r := CleanFragment(part);
    var last := r[|c| - 1];
    if |c| > 1 {
      assert last == r[1..|c|][|c| - 2] == c[|c| - 1];
    }
    assert last == c[|c| - 1] || (|c| == 1 && last == Upper(c[0]));
    if r[|r| - 1] == '.' {
      assert |r| == |c| + 1;
      assert r[|r| - 2] == last;
    }
  }

  /** Every output of the loop over period-free parts is an emitted sentence. */
  lemma {:induction false} SentencesAreEmitted(parts: seq<string>)
    requires forall k :: 0 <= k < |parts| ==> Free(parts[k], '.')
    ensures forall k :: 0 <= k < |Sentences(parts)| ==> IsEmitted(Sentences(parts)[k])
  {
    if parts != [] {
      var init := parts[..|parts| - 1];
      SentencesAreEmitted(init);
      var last := parts[|parts| - 1];
      if Strip(last) != [] {
        CleanFragmentIsEmitted(last);
      }
    }
  }

  /** A clean piece is kept as itself, terminated. */
  lemma KeptClean(p: string)
    requires IsClean(p)
    ensures Kept(p) == [Terminate(p)]
  {
    StripUnpadded(p);
    var d := Capitalize(p);
    assert d == [d[0]] + d[1..] && p == [p[0]] + p[1..];
  }

  /** The sentences of a list with a known first part. */
  lemma SentencesCons(p: string, rest: seq<string>)
    ensures Sentences([p] + rest) == Kept(p) + Sentences(rest)
  {
    SentencesAppend([p], rest);
    assert Sentences([p]) == Kept(p) by {
      assert [p][..0] == [];
    }
  }

  /** One emitted sentence on its own comes back from another pass. */
  lemma LastReprocesses(s: string)
    requires IsEmitted(s)
    ensures Reprocesses(s)
  {
    if s[|s| - 1] == '.' {
      var p := s[..|s| - 1];
      assert s == p + ".";
      assert Free(p, '.') by {
        forall j | 0 <= j < |p| ensures p[j] != '.' {
          assert p[j] == s[j];
        }
      }
      SplitFreePrefix(p, ".", '.');
      SplitCons('.', [], '.');
      assert Split(".", '.') == [[], []] by {
        assert ['.'] + [] == ".";
      }
      assert p + [] == p;
      assert Split(s, '.') == [p, []];
      KeptClean(p);
      SentencesCons(p, [[]]);
      assert Sentences([[]]) == [] by {
        assert Strip([]) == [];
      }
      assert Sentences([p, []]) == [s] by {
        assert [p, []] == [p] + [[]];
      }
    } else {
      assert Free(s, '.');
      SplitFreePrefix(s, [], '.');
      assert s + [] == s;
      assert Split(s, '.') == [s];
      KeptClean(s);
    }
  }

  /** Splitting `p.` followed by a space and `t`: the piece `p`, then the
      pieces of `t` with the space on the first of them. */
  lemma SplitAfterPeriod(p: string, t: string)
    requires Free(p, '.')
    ensures var y := Split(t, '.');
      Split(p + ". " + t, '.') == [p] + ([[' '] + y[0]] + y[1..])
  {
    assert p + ". " + t == p + (['.'] + ([' '] + t));
    SplitFreePrefix(p, ['.'] + ([' '] + t), '.');
    SplitCons('.', [' '] + t, '.');
    SplitCons(' ', t, '.');
    assert p + [] == p;
  }

  /** A space before the first piece does not change the sentences. */
  lemma SentencesAfterSpace(y: seq<string>)
    requires y != [] && IsClean(y[0])
    ensures Sentences([[' '] + y[0]] + y[1..]) == Sentences(y)
  {
    var z := [[' '] + y[0]] + y[1..];
    StripLeadingSpace([' '] + y[0], y[0]);
    StripUnpadded(y[0]);
    forall k | 0 <= k < |z| ensures Strip(z[k]) == Strip(y[k]) {
      if k > 0 {
        assert z[k] == y[k];
      }
    }
    SentencesOnlySeeStripped(z, y);
  }

  /** A sentence ending in a period, a space, then a text that comes back
      from another pass: the whole comes back too. */
  lemma PeriodStepReprocesses(s: string, t: string)
    requires IsEmitted(s) && s[|s| - 1] == '.' && Reprocesses(t)
    ensures Reprocesses(s + " " + t)
  {
    var p := s[..|s| - 1];
    var y := Split(t, '.');
    assert s == p + ".";
    assert Free(p, '.') by {
      forall j | 0 <= j < |p| ensures p[j] != '.' {
        assert p[j] == s[j];
      }
    }
    var z := [[' '] + y[0]] + y[1..];
    assert s + " " + t == p + ". " + t;
    SplitAfterPeriod(p, t);
    SentencesAfterSpace(y);
    KeptClean(p);
    SentencesCons(p, z);
    assert Sentences(Split(s + " " + t, '.')) == [s] + Sentences(y);
    KeptClean(y[0]);
    SentencesCons(y[0], y[1..]);
    assert y == [y[0]] + y[1..];
    JoinCons(s, Sentences(y), ' ');
  }

  /** A sentence ending in `!` or `?`, a space, then a text that comes back
      from another pass: the whole comes back too, the sentence merging into
      the first piece of the text. */
  lemma OpenStepReprocesses(s: string, t: string)
    requires IsEmitted(s) && s[|s| - 1] != '.' && Reprocesses(t)
    ensures Reprocesses(s + " " + t)
  {
    var y := Split(t, '.');
    var q := s + " ";
    assert Free(q, '.') by {
      forall j | 0 <= j < |q| ensures q[j] != '.' {
        if j < |s| {
          assert q[j] == s[j];
        }
      }
    }
    SplitFreePrefix(q, t, '.');
    var x0 := q + y[0];
    assert Split(s + " " + t, '.') == [x0] + y[1..];
    assert IsClean(x0);
    KeptClean(x0);
    KeptClean(y[0]);
    assert Terminate(x0) == q + Terminate(y[0]);
    SentencesCons(x0, y[1..]);
    SentencesCons(y[0], y[1..]);
    assert y == [y[0]] + y[1..];
    JoinPrefix(q, Terminate(y[0]), Sentences(y[1..]), ' ');
  }

  /** The single-space join of emitted sentences comes back unchanged from
      another pass. */
  lemma {:induction false} EmittedReprocess(out: seq<string>)
    requires out != [] && forall k :: 0 <= k < |out| ==> IsEmitted(out[k])
    ensures Reprocesses(Join(out, ' '))
  {
    if |out| == 1 {
      LastReprocesses(out[0]);
    } else {
      var s, t := out[0], Join(out[1..], ' ');
      EmittedReprocess(out[1..]);
      assert Join(out, ' ') == s + " " + t;
      if s[|s| - 1] == '.' {
        PeriodStepReprocesses(s, t);
      } else {
        OpenStepReprocesses(s, t);
      }
    }
  }

  /** `process_text` is idempotent: its output is already normalised. */
  lemma ProcessedTextIdempotent(text: string)
    ensures ProcessedText(ProcessedText(text)) == ProcessedText(text)
  {
    if text != [] {
      var out := Sentences(Split(text, '.'));
      ProcessedTextIsSentences(text);
      var r := Join(out, ' ');
      if r != [] {
        SentencesAreEmitted(Split(text, '.'));
        EmittedReprocess(out);
        ReplaceIsRedundant(r);
      }
    }
  }

  /** The worked example: two fragments capitalised, terminated and joined. */
  lemma ProcessTextExample()
    ensures ProcessedText("hello world. this is a test") == "Hello world. This is a test."
  {
    ReplaceIsRedundant("hello world. this is a test");
    ExampleSplit();
    ExampleSentences();
    ExampleJoin();
  }

  lemma ExampleSplit()
    ensures Split("hello world. this is a test", '.') == ["hello world", " this is a test"]
  {
    var p0, p1 := "hello world", " this is a test";
    assert Join([p0, p1], '.') == "hello world. this is a test";
    SplitJoin([p0, p1], '.');
  }

  lemma ExampleJoin()
    ensures Join(["Hello world.", "This is a test."], ' ') == "Hello world. This is a test."
  {
  }

  lemma ExampleSentences()
    ensures Sentences(["hello world", " this is a test"]) == ["Hello world.", "This is a test."]
  {
    KeptPlain("hello world", "Hello world.");
    KeptAfterSpace(" this is a test", "this is a test", "This is a test.");
    SentencesOfTwo("hello world", " this is a test");
  }

  /** A part that strips to `s`, longer than one character and not
      terminated, is kept as `s` with its first letter uppercased and a
      period added. */
  lemma KeptUnterminated(part: string, s: string, r: string)
    requires Strip(part) == s && |s| > 1 && !IsTerminator(s[|s| - 1])
    requires r == [Upper(s[0])] + s[1..] + "."
    ensures Kept(part) == [r]
  {
  }

  lemma KeptPlain(s: string, r: string)
    requires |s| > 1 && !IsSpace(s[0]) && !IsSpace(s[|s| - 1]) && !IsTerminator(s[|s| - 1])
    requires r == [Upper(s[0])] + s[1..] + "."
    ensures Kept(s) == [r]
  {
    StripUnpadded(s);
    KeptUnterminated(s, s, r);
  }

  lemma KeptAfterSpace(t: string, s: string, r: string)
    requires t == [' '] + s && |s| > 1 && !IsSpace(s[0]) && !IsSpace(s[|s| - 1]) && !IsTerminator(s[|s| - 1])
    requires r == [Upper(s[0])] + s[1..] + "."
    ensures Kept(t) == [r]
  {
    StripLeadingSpace(t, s);
    KeptUnterminated(t, s, r);
  }

  lemma SentencesOfTwo(p0: string, p1: string)
    ensures Sentences([p0, p1]) == Kept(p0) + Kept(p1)
  {
    assert [p0, p1][..1] == [p0];
    assert [p0][..0] == [];
  }

  // ---------------------------------------------------------------------
  // process_transcription_segments

  /** The `text_segments` list: each segment's text stripped, empty ones
      dropped, in segment order. */
  function SpokenTexts(segments: seq<string>): (texts: seq<string>)
    ensures |texts| <= |segments|
    ensures forall k :: 0 <= k < |texts| ==> texts[k] != []
  {
    if segments == [] then []
    else
      var init := SpokenTexts(segments[..|segments| - 1]);
      var t := Strip(segments[|segments| - 1]);
      if t != [] then init + [t] else init
  }

  /** `process_transcription_segments(segments)`: `None` when no speech. */
  function TranscriptText(segments: seq<string>): Option<string>
  {
    var texts := SpokenTexts(segments);
    if texts != [] then Some(ProcessedText(Join(texts, ' '))) else None
  }

  /** The loop of `process_transcription_segments`, proved to compute
      `TranscriptText`. */
  method ProcessTranscriptionSegments(segments: seq<string>) returns (r: Option<string>)
    ensures r == TranscriptText(segments)
  {
    var textSegments: seq<string> := [];
    for i := 0 to |segments|
      invariant textSegments == SpokenTexts(segments[..i])
    {
      assert segments[..i + 1][..i] == segments[..i];
      var segmentText := Strip(segments[i]);
      if segmentText != [] {
        textSegments := textSegments + [segmentText];
      }
    }
    assert segments[..|segments|] == segments;
    if textSegments != [] {
      var text := Join(textSegments, ' ');
      var processed := ProcessText(text);
      return Some(processed);
    } else {
      return None;
    }
  }

  /** "No speech detected" exactly when every segment strips to nothing. */
  lemma {:induction false} NoSpeechIffAllBlank(segments: seq<string>)
    ensures TranscriptText(segments) == None <==> forall k :: 0 <= k < |segments| ==> Strip(segments[k]) == []
  {
    SpokenTextsEmpty(segments);
  }

  lemma {:induction false} SpokenTextsEmpty(segments: seq<string>)
    ensures SpokenTexts(segments) == [] <==> forall k :: 0 <= k < |segments| ==> Strip(segments[k]) == []
  {
    if segments != [] {
      var init := segments[..|segments| - 1];
      SpokenTextsEmpty(init);
      assert forall k :: 0 <= k < |init| ==> init[k] == segments[k];
    }
  }

  /** Texts are kept in segment order, each already stripped. */
  lemma {:induction false} SpokenTextsAppend(a: seq<string>, b: seq<string>)
    ensures SpokenTexts(a + b) == SpokenTexts(a) + SpokenTexts(b)
    decreases |b|
  {
    if b == [] {
      assert a + b == a;
    } else {
      var b' := b[..|b| - 1];
      SpokenTextsAppend(a, b');
      assert (a + b)[..|a + b| - 1] == a + b';
      assert (a + b)[|a + b| - 1] == b[|b| - 1];
    }
  }

  lemma {:induction false} SpokenTextsStripped(segments: seq<string>)
    ensures forall k :: 0 <= k < |SpokenTexts(segments)| ==> Strip(SpokenTexts(segments)[k]) == SpokenTexts(segments)[k]
  {
    if segments != [] {
      SpokenTextsStripped(segments[..|segments| - 1]);
      StripStripped(segments[|segments| - 1]);
    }
  }

  /** Periods with no space after them are left alone by the `". "` rewrite. */
  lemma ReplaceLeavesDots()
    ensures Replace("...", ". ", ".") == "..."
  {
    assert Replace("", ". ", ".") == "";
    assert "."[..1] != ". " && "."[1..] == "";
    assert Replace(".", ". ", ".") == ".";
    assert ".."[..2] != ". " && ".."[1..] == ".";
    assert Replace("..", ". ", ".") == "..";
    assert "..."[..2] != ". " && "..."[1..] == "..";
  }

  /** Speech made only of periods is "detected" yet normalises to the empty
      string, which the caller then treats as a failed transcription. */
  lemma OnlyPeriodsGiveEmptyTranscript()
    ensures TranscriptText([" ..."]) == Some("")
  {
    PeriodsAreSpoken();
    assert Join(["..."], ' ') == "...";
    PeriodsNormaliseToNothing();
  }

  lemma PeriodsAreSpoken()
    ensures SpokenTexts([" ..."]) == ["..."]
  {
    StripSkipsLeadingSpace(' ', "...");
    StripUnpadded("...");
    assert [" ..."][..0] == [];
  }

  lemma PeriodsNormaliseToNothing()
    ensures ProcessedText("...") == ""
  {
    ReplaceLeavesDots();
    PeriodsSplitIntoBlanks();
    SentencesEmpty(["", "", "", ""]);
  }

  lemma PeriodsSplitIntoBlanks()
    ensures Split("...", '.') == ["", "", "", ""]
  {
    var parts := ["", "", "", ""];
    assert Join(parts, '.') == "...";
    SplitJoin(parts, '.');
  }
}
