/**
 Dictionary lookup and greedy compression.
 */
module JscCompress {
  import opened Bits
  import opened Jsc
  import opened JscText
  import opened Options

  // strncmp(b, str, len) == 0
  predicate SameStart(b: string, str: string, len: nat) {
    b[..if len < |b| then len else |b|] == str[..if len < |str| then len else |str|]
  }

  // First prefix entry from i on for character ch, or the end of the table.
  function FirstPrefix(ps: seq<PrefixEntry>, ch: char, i: nat): (r: nat)
    requires i <= |ps|
    ensures i <= r <= |ps| && (r < |ps| ==> ps[r].first == ch)
    decreases |ps| - i
  {
    if i == |ps| || ps[i].first == ch then i else FirstPrefix(ps, ch, i + 1)
  }

  // First list entry in i..end that b starts with, or end.
  function FirstMatch(list: seq<ListEntry>, b: string, i: nat, end: nat): (r: nat)
    requires i <= end <= |list|
    ensures i <= r <= end && (r < end ==> SameStart(b, list[r].str, list[r].size))
    decreases end - i
  {
    if i == end || SameStart(b, list[i].str, list[i].size) then i else FirstMatch(list, b, i + 1, end)
  }

  // The index lookup finds for a non-empty string, if any.
  ghost function Found(d: Dictionary, b: string): Option<nat>
    requires d.WellFormed() && b != ""
  {
    var i := FirstPrefix(d.prefixes, b[0], 0);
    if i == |d.prefixes| then None
    else
      var p := d.prefixes[i];
      assert d.PrefixOk(p);
      if p.size == 1 then Some(d.list[p.index].index)
      else
        var j := FirstMatch(d.list, b, p.index, p.index + p.size);
        if j == p.index + p.size then None else Some(d.list[j].index)
  }

  method Lookup(d: Dictionary, b: string) returns (found: Option<nat>)
    requires d.WellFormed() && b != ""
    ensures found == Found(d, b)
  {
    var i := 0;
    while i < |d.prefixes| && b[0] != d.prefixes[i].first
      invariant i <= |d.prefixes| && FirstPrefix(d.prefixes, b[0], 0) == FirstPrefix(d.prefixes, b[0], i)
    {
      i := i + 1;
    }
    if i == |d.prefixes| {
      return None;
    }
    var p := d.prefixes[i];
    assert d.PrefixOk(p);
    if p.size == 1 {
      return Some(d.list[p.index].index);
    }
    var j := p.index;
    while j < p.index + p.size
      invariant p.index <= j <= p.index + p.size
      invariant FirstMatch(d.list, b, p.index, p.index + p.size) == FirstMatch(d.list, b, j, p.index + p.size)
    {
      if SameStart(b, d.list[j].str, d.list[j].size) {
        return Some(d.list[j].index);
      }
      j := j + 1;
    }
    return None;
  }

  // What is found is a non-empty word the text starts with, and its size is its length.
  lemma {:induction false} FoundIsStart(d: Dictionary, b: string)
    requires d.WellFormed() && b != "" && Found(d, b).Some?
    ensures var ix := Found(d, b).value;
            && ix < |d.words|
            && 0 < d.words[ix].size == |d.words[ix].str| <= |b|
            && b[..d.words[ix].size] == d.words[ix].str
  {
    var p := d.prefixes[FirstPrefix(d.prefixes, b[0], 0)];
    assert d.PrefixOk(p);
    var j := if p.size == 1 then p.index else FirstMatch(d.list, b, p.index, p.index + p.size);
    var e := d.list[j];
    assert d.ListOk(e);
  }

  // --- which word is found ---

  predicate Starts(b: string, str: string) {
    |str| <= |b| && b[..|str|] == str
  }

  // Prefix entry i is the first for b's first character, and list entry j the first of its block
  // that b starts with.
  ghost predicate IsFirst(d: Dictionary, b: string, i: nat, j: nat)
    requires d.WellFormed() && b != ""
  {
    && i < |d.prefixes| && d.prefixes[i].first == b[0]
    && (forall k :: 0 <= k < i ==> d.prefixes[k].first != b[0])
    && d.prefixes[i].index <= j < d.prefixes[i].index + d.prefixes[i].size
    && j < |d.list| && Starts(b, d.list[j].str)
    && (forall k :: d.prefixes[i].index <= k < j ==> !Starts(b, d.list[k].str))
  }

  lemma {:induction false} NoneBefore(ps: seq<PrefixEntry>, ch: char, i: nat)
    requires i <= |ps|
    ensures forall k :: i <= k < FirstPrefix(ps, ch, i) ==> ps[k].first != ch
    decreases |ps| - i
  {
    if i < |ps| && ps[i].first != ch { NoneBefore(ps, ch, i + 1); }
  }

  lemma {:induction false} NoMatchBefore(list: seq<ListEntry>, b: string, i: nat, end: nat)
    requires i <= end <= |list|
    ensures forall k :: i <= k < FirstMatch(list, b, i, end) ==> !SameStart(b, list[k].str, list[k].size)
    decreases end - i
  {
    if i < end && !SameStart(b, list[i].str, list[i].size) { NoMatchBefore(list, b, i + 1, end); }
  }

  lemma {:induction false} SameStartIsStarts(b: string, str: string)
    ensures SameStart(b, str, |str|) <==> Starts(b, str)
  {
    if |b| < |str| { assert b[..|b|] == b && str[..|str|] == str; }
  }

  lemma {:induction false} OnlyFirst(d: Dictionary, b: string, i: nat, j: nat, i': nat, j': nat)
    requires d.WellFormed() && b != "" && IsFirst(d, b, i, j) && IsFirst(d, b, i', j')
    ensures i == i' && j == j'
  {
  }

  // The places of the first entries, when there are any.
  lemma {:induction false} FirstPlaces(d: Dictionary, b: string) returns (i: nat, j: nat)
    requires d.WellFormed() && b != ""
    ensures Found(d, b).Some? ==> IsFirst(d, b, i, j) && Found(d, b).value == d.list[j].index
    ensures Found(d, b).None? ==> forall x: nat, y: nat :: !IsFirst(d, b, x, y)
  {
    hide Starts, SameStart, FirstPrefix, FirstMatch;
    i, j := FirstPrefix(d.prefixes, b[0], 0), 0;
    NoneBefore(d.prefixes, b[0], 0);
    if i < |d.prefixes| {
      var p := d.prefixes[i];
      assert d.PrefixOk(p);
      forall k | p.index <= k < p.index + p.size
        ensures SameStart(b, d.list[k].str, d.list[k].size) <==> Starts(b, d.list[k].str)
      {
        assert d.ListOk(d.list[k]);
        SameStartIsStarts(b, d.list[k].str);
      }
      if p.size == 1 {
        j := p.index;
        OneLetter(b, d.list[j].str);
      } else {
        j := FirstMatch(d.list, b, p.index, p.index + p.size);
        NoMatchBefore(d.list, b, p.index, p.index + p.size);
        forall x: nat, y: nat ensures j == p.index + p.size ==> !IsFirst(d, b, x, y) {
        }
      }
    }
  }

  lemma {:induction false} OneLetter(b: string, str: string)
    requires b != "" && str == [b[0]]
    ensures Starts(b, str)
  {
  }

  /** The word found is that of the first entry the text starts with, in the first block for its first character. */
  lemma {:induction false} FoundExactly(d: Dictionary, b: string, index: nat)
    requires d.WellFormed() && b != ""
    ensures Found(d, b) == Some(index)
            <==> exists i: nat, j: nat :: IsFirst(d, b, i, j) && d.list[j].index == index
  {
    hide Found, Starts;
    var i, j := FirstPlaces(d, b);
    forall x: nat, y: nat | IsFirst(d, b, x, y) && d.list[y].index == index ensures Found(d, b) == Some(index) {
      OnlyFirst(d, b, x, y, i, j);
    }
  }

  // No entry of the block follows a proper prefix of itself.
  ghost predicate LongestFirst(d: Dictionary, i: nat)
    requires d.WellFormed() && i < |d.prefixes|
  {
    var p := d.prefixes[i];
    d.PrefixOk(p) && forall k, l :: p.index <= k < l < p.index + p.size ==>
      !(|d.list[k].str| < |d.list[l].str| && Starts(d.list[l].str, d.list[k].str))
  }

  // In a block so ordered the word found is the longest the text starts with.
  lemma {:induction false} LongestFound(d: Dictionary, b: string, i: nat, j: nat, l: nat)
    requires d.WellFormed() && b != "" && IsFirst(d, b, i, j) && LongestFirst(d, i)
    requires d.prefixes[i].index <= l < d.prefixes[i].index + d.prefixes[i].size
    requires l < |d.list| && Starts(b, d.list[l].str)
    ensures |d.list[l].str| <= |d.list[j].str|
  {
    if |d.list[j].str| <= |d.list[l].str| { StartsChain(b, d.list[j].str, d.list[l].str); }
  }

  lemma {:induction false} StartsChain(b: string, x: string, y: string)
    requires Starts(b, x) && Starts(b, y) && |x| <= |y|
    ensures Starts(y, x)
  {
    assert y[..|x|] == b[..|y|][..|x|] == b[..|x|];
  }

  ghost function Rest(d: Dictionary, w: string): (r: string)
    requires d.WellFormed() && w != "" && Found(d, w).Some?
    ensures |r| < |w| && w == d.words[Found(d, w).value].str + r
  {
    FoundIsStart(d, w);
    w[d.words[Found(d, w).value].size..]
  }

  // Greedy tokens of a word, the last one flagged if the word is used up and `space` is set.
  ghost function WordTokens(d: Dictionary, w: string, space: bool): (ts: seq<Token>)
    requires d.WellFormed()
    ensures forall i :: 0 <= i < |ts| ==> ts[i].index < |d.words|
    decreases |w|
  {
    if w == "" || Found(d, w).None? then []
    else
      FoundIsStart(d, w);
      [Token(Found(d, w).value, space && Rest(d, w) == "")] + WordTokens(d, Rest(d, w), space)
  }

  // Greedy lookup uses the word up.
  ghost predicate Covered(d: Dictionary, w: string)
    requires d.WellFormed()
    decreases |w|
  {
    w == "" || (Found(d, w).Some? && Covered(d, Rest(d, w)))
  }

  // Empty words before the last stand for a space of their own.
  function Spoken(w: string, isLast: bool): string {
    if w == "" && !isLast then " " else w
  }

  ghost function TextTokens(d: Dictionary, words: seq<string>): (ts: seq<Token>)
    requires d.WellFormed()
    ensures forall i :: 0 <= i < |ts| ==> ts[i].index < |d.words|
  {
    if words == [] then []
    else
      var isLast := |words| == 1;
      WordTokens(d, Spoken(words[0], isLast), words[0] != "" && !isLast) + TextTokens(d, words[1..])
  }

  ghost predicate AllCovered(d: Dictionary, words: seq<string>)
    requires d.WellFormed()
  {
    words == [] || (Covered(d, Spoken(words[0], |words| == 1)) && AllCovered(d, words[1..]))
  }

  // --- splitting on spaces, empty parts kept ---

  function FindSpace(text: string, p: nat): (q: nat)
    requires p <= |text|
    ensures p <= q <= |text| && (q < |text| ==> text[q] == ' ')
    decreases |text| - p
  {
    if p == |text| || text[p] == ' ' then p else FindSpace(text, p + 1)
  }

  function Split(text: string, p: nat): (words: seq<string>)
    requires p <= |text|
    ensures words != []
    decreases |text| - p
  {
    var q := FindSpace(text, p);
    if q == |text| then [text[p..]] else [text[p..q]] + Split(text, q + 1)
  }

  function Join(words: seq<string>): string {
    if words == [] then "" else if |words| == 1 then words[0] else words[0] + " " + Join(words[1..])
  }

  lemma {:induction false} JoinSplit(text: string, p: nat)
    requires p <= |text|
    ensures Join(Split(text, p)) == text[p..]
    decreases |text| - p
  {
    var q := FindSpace(text, p);
    if q < |text| {
      JoinSplit(text, q + 1);
      assert text[p..] == text[p..q] + " " + text[q + 1..];
    }
  }

  lemma {:induction false} SplitStep(text: string, p: nat)
    requires p <= |text|
    ensures var q := FindSpace(text, p);
            Split(text, p) == if q == |text| then [text[p..]] else [text[p..q]] + Split(text, q + 1)
  {
  }

  // No part holds a space; with JoinSplit this leaves no other way to split.
  lemma {:induction false} PartsHaveNoSpace(text: string, p: nat)
    requires p <= |text|
    ensures forall w :: w in Split(text, p) ==> ' ' !in w
    decreases |text| - p
  {
    hide FindSpace, Split;
    SplitStep(text, p);
    NoSpaceBefore(text, p);
    var q := FindSpace(text, p);
    if q < |text| {
      PartsHaveNoSpace(text, q + 1);
      assert ' ' !in text[p..q];
    } else {
      assert text[p..] == text[p..q];
      assert ' ' !in text[p..q];
    }
  }

  lemma {:induction false} NoSpaceBefore(text: string, p: nat)
    requires p <= |text|
    ensures forall k :: p <= k < FindSpace(text, p) ==> text[k] != ' '
    decreases |text| - p
  {
    if p < |text| && text[p] != ' ' { NoSpaceBefore(text, p + 1); }
  }

  method SplitWords(text: string) returns (words: seq<string>)
    ensures words == Split(text, 0)
  {
    hide Split;
    words := [];
    var p := 0;
    while true
      invariant p <= |text| && words + Split(text, p) == Split(text, 0)
      decreases |text| - p
    {
      var q := p;
      while q < |text| && text[q] != ' '
        invariant p <= q <= |text| && FindSpace(text, p) == FindSpace(text, q)
      {
        q := q + 1;
      }
      SplitStep(text, p);
      assert FindSpace(text, p) == q;
      if q == |text| {
        words := words + [text[p..]];
        break;
      }
      assert words + ([text[p..q]] + Split(text, q + 1)) == words + [text[p..q]] + Split(text, q + 1);
      words := words + [text[p..q]];
      p := q + 1;
    }
  }

  // --- compression ---

  datatype Pair = Pair(bits: seq<bit>, n: nat)

  function AllBits(ps: seq<Pair>): seq<bit> {
    if ps == [] then [] else AllBits(ps[..|ps| - 1]) + ps[|ps| - 1].bits
  }

  // The characters the pairs claim to stand for.
  function Chars(ps: seq<Pair>): nat {
    if ps == [] then 0 else Chars(ps[..|ps| - 1]) + ps[|ps| - 1].n
  }

  // What one token is sent as, with the characters it stands for.
  function PairOf(d: Dictionary, t: Token): Pair
    requires t.index < |d.words|
  {
    Pair(CodeBits(t), |d.words[t.index].str| + (if t.space then 1 else 0))
  }

  function Pairs(d: Dictionary, ts: seq<Token>): (ps: seq<Pair>)
    requires forall i :: 0 <= i < |ts| ==> ts[i].index < |d.words|
    ensures |ps| == |ts|
  {
    seq(|ts|, i requires 0 <= i < |ts| => PairOf(d, ts[i]))
  }

  // All bits together are the code of the tokens, all counts the length of what they render.
  lemma {:induction false} PairsStandFor(d: Dictionary, ts: seq<Token>)
    requires forall i :: 0 <= i < |ts| ==> ts[i].index < |d.words|
    ensures AllBits(Pairs(d, ts)) == Encoded(ts) && Chars(Pairs(d, ts)) == |Rendered(d, ts)|
  {
    hide CodeBits;
    if ts != [] {
      var n := |ts| - 1;
      PairsStandFor(d, ts[..n]);
      assert Pairs(d, ts)[..n] == Pairs(d, ts[..n]);
      assert ts == ts[..n] + [ts[n]];
      EncodedConcat(ts[..n], [ts[n]]);
      RenderedConcat(d, ts[..n], [ts[n]]);
      OneToken(d, ts[n]);
    }
  }

  lemma {:induction false} OneToken(d: Dictionary, t: Token)
    requires t.index < |d.words|
    ensures Encoded([t]) == PairOf(d, t).bits && |Rendered(d, [t])| == PairOf(d, t).n
  {
    hide CodeBits;
    assert [t][1..] == [];
    assert Encoded([t]) == CodeBits(t) + [];
  }

  lemma {:induction false} EncodedConcat(a: seq<Token>, b: seq<Token>)
    ensures Encoded(a + b) == Encoded(a) + Encoded(b)
  {
    hide CodeBits;
    if a == [] {
      assert a + b == b;
    } else {
      assert (a + b)[1..] == a[1..] + b;
      EncodedConcat(a[1..], b);
    }
  }

  // The inner loop: chop one word.
  method CompressWord(d: Dictionary, word: string, space: bool, start: seq<Pair>) returns (out: seq<Pair>)
    requires d.WellFormed()
    ensures out == start + Pairs(d, WordTokens(d, word, space))
  {
    hide CodeBits, Found;
    out := start;
    var w := word;
    while w != ""
      invariant out + Pairs(d, WordTokens(d, w, space)) == start + Pairs(d, WordTokens(d, word, space))
      decreases |w|
    {
      var found := Lookup(d, w);
      if found.None? {
        break;
      }
      FoundIsStart(d, w);
      var t := d.words[found.value];
      ghost var rest := WordTokens(d, Rest(d, w), space);
      w := w[t.size..];
      var isLast := w == "";
      var shouldAppendSpace := isLast && space;
      var bitsOut := Codeword(found.value, shouldAppendSpace);
      ghost var token := Token(found.value, shouldAppendSpace);
      assert Pairs(d, [token] + rest) == [PairOf(d, token)] + Pairs(d, rest);
      assert out + ([PairOf(d, token)] + Pairs(d, rest)) == out + [PairOf(d, token)] + Pairs(d, rest);
      out := out + [Pair(bitsOut, t.size + (if shouldAppendSpace then 1 else 0))];
    }
  }

  method Compress(d: Dictionary, text: string) returns (out: seq<Pair>)
    requires d.WellFormed()
    ensures out == Pairs(d, TextTokens(d, Split(text, 0)))
    ensures AllBits(out) == Encoded(TextTokens(d, Split(text, 0)))
    ensures Chars(out) == |Rendered(d, TextTokens(d, Split(text, 0)))|
  {
    hide WordTokens, Encoded, Rendered, CodeBits, Split, PairOf;
    var words := SplitWords(text);
    out := [];
    assert words[0..] == words;
    for i := 0 to |words|
      invariant out + Pairs(d, TextTokens(d, words[i..])) == Pairs(d, TextTokens(d, words))
    {
      var w := words[i];
      var isLastWord := i == |words| - 1;
      var isSpaceCharacter := false;
      if w == "" && !isLastWord {
        w := " ";
        isSpaceCharacter := true;
      }
      assert words[i..][0] == words[i] && words[i..][1..] == words[i + 1..];
      ghost var ts := WordTokens(d, w, !isSpaceCharacter && !isLastWord);
      ghost var rest := TextTokens(d, words[i + 1..]);
      assert Pairs(d, ts + rest) == Pairs(d, ts) + Pairs(d, rest);
      assert out + (Pairs(d, ts) + Pairs(d, rest)) == out + Pairs(d, ts) + Pairs(d, rest);
      out := CompressWord(d, w, !isSpaceCharacter && !isLastWord, out);
    }
    NoTokens(d);
    assert words[|words|..] == [];
    PairsStandFor(d, TextTokens(d, words));
  }

  lemma {:induction false} NoTokens(d: Dictionary)
    requires d.WellFormed()
    ensures TextTokens(d, []) == [] && Encoded([]) == [] && Rendered(d, []) == ""
  {
  }

  // --- the round trip ---

  lemma {:induction false} RenderedConcat(d: Dictionary, a: seq<Token>, b: seq<Token>)
    requires forall i :: 0 <= i < |a| ==> a[i].index < |d.words|
    requires forall i :: 0 <= i < |b| ==> b[i].index < |d.words|
    ensures Rendered(d, a + b) == Rendered(d, a) + Rendered(d, b)
  {
    if a == [] {
      assert a + b == b;
    } else {
      assert (a + b)[0] == a[0] && (a + b)[1..] == a[1..] + b;
      RenderedConcat(d, a[1..], b);
    }
  }

  // A covered word comes back, with its flagged space; any other comes back short.
  lemma {:induction false} WordBack(d: Dictionary, w: string, space: bool)
    requires d.WellFormed() && w != ""
    ensures Covered(d, w) ==> Rendered(d, WordTokens(d, w, space)) == w + (if space then " " else "")
    ensures !Covered(d, w) ==> |Rendered(d, WordTokens(d, w, space))| < |w|
    decreases |w|
  {
    hide Found, Rest, Rendered;
    if Found(d, w).None? {
      NoTokens(d);
    } else {
      FoundIsStart(d, w);
      var rest := Rest(d, w);
      RenderedFirst(d, Token(Found(d, w).value, space && rest == ""), WordTokens(d, rest, space));
      if rest == "" {
        NoWord(d, space);
      } else {
        WordBack(d, rest, space);
      }
    }
  }

  lemma {:induction false} RenderedFirst(d: Dictionary, t: Token, tail: seq<Token>)
    requires t.index < |d.words| && forall i :: 0 <= i < |tail| ==> tail[i].index < |d.words|
    ensures Rendered(d, [t] + tail) == d.words[t.index].str + (if t.space then " " else "") + Rendered(d, tail)
  {
    assert ([t] + tail)[1..] == tail;
  }

  lemma {:induction false} WordsBack(d: Dictionary, words: seq<string>)
    requires d.WellFormed()
    ensures AllCovered(d, words) ==> Rendered(d, TextTokens(d, words)) == Join(words)
    ensures !AllCovered(d, words) ==> |Rendered(d, TextTokens(d, words))| < |Join(words)|
  {
    hide WordTokens, Covered, Rendered, Spoken;
    if words == [] {
      NoTokens(d);
    } else {
      var isLast := |words| == 1;
      WordsBack(d, words[1..]);
      PieceBack(d, words[0], isLast);
      RenderedConcat(d, WordTokens(d, Spoken(words[0], isLast), words[0] != "" && !isLast), TextTokens(d, words[1..]));
      JoinFirst(words);
    }
  }

  lemma {:induction false} JoinFirst(words: seq<string>)
    requires words != []
    ensures Join(words) == words[0] + (if |words| == 1 then "" else " ") + Join(words[1..])
  {
    if |words| == 1 { assert words[1..] == []; }
  }

  // A word with the space that follows it, if any.
  lemma {:induction false} PieceBack(d: Dictionary, word: string, isLast: bool)
    requires d.WellFormed()
    ensures var ts := WordTokens(d, Spoken(word, isLast), word != "" && !isLast);
            var piece := word + (if isLast then "" else " ");
            && (Covered(d, Spoken(word, isLast)) ==> Rendered(d, ts) == piece)
            && (!Covered(d, Spoken(word, isLast)) ==> |Rendered(d, ts)| < |piece|)
  {
    hide WordTokens, Covered, Rendered;
    var w, space := Spoken(word, isLast), word != "" && !isLast;
    if w == "" { NoWord(d, space); } else { WordBack(d, w, space); }
  }

  lemma {:induction false} NoWord(d: Dictionary, space: bool)
    requires d.WellFormed()
    ensures Covered(d, "") && Rendered(d, WordTokens(d, "", space)) == ""
  {
  }

  // decompress(compress(text)) == text exactly when greedy lookup never gets stuck, for every
  // text: leading, trailing and repeated spaces included.
  lemma {:induction false} TextRoundTrip(d: Dictionary, text: string)
    requires d.WellFormed()
    ensures Decoded(d, Parse(Encoded(TextTokens(d, Split(text, 0))))) == text <==> AllCovered(d, Split(text, 0))
  {
    hide TextTokens, AllCovered, Decoded, Parse;
    var words := Split(text, 0);
    CodeRoundTrip(d, TextTokens(d, words));
    WordsBack(d, words);
    JoinSplit(text, 0);
    assert text[0..] == text;
  }

  // The table offers the character on its own.
  ghost predicate HasLetter(d: Dictionary, ch: char)
    requires d.WellFormed()
  {
    var i := FirstPrefix(d.prefixes, ch, 0);
    && i < |d.prefixes|
    && d.PrefixOk(d.prefixes[i])
    && (d.prefixes[i].size == 1
        || exists j :: d.prefixes[i].index <= j < d.prefixes[i].index + d.prefixes[i].size && d.list[j].str == [ch])
  }

  lemma {:induction false} MatchExists(list: seq<ListEntry>, b: string, i: nat, end: nat, j: nat)
    requires i <= j < end <= |list| && SameStart(b, list[j].str, list[j].size)
    ensures FirstMatch(list, b, i, end) < end
    decreases end - i
  {
    if !SameStart(b, list[i].str, list[i].size) { MatchExists(list, b, i + 1, end, j); }
  }

  lemma {:induction false} LettersCover(d: Dictionary, w: string)
    requires d.WellFormed() && forall k :: 0 <= k < |w| ==> HasLetter(d, w[k])
    ensures Covered(d, w)
    decreases |w|
  {
    if w != "" {
      LetterFound(d, w);
      var n := |w| - |Rest(d, w)|;
      forall k | 0 <= k < |Rest(d, w)| ensures HasLetter(d, Rest(d, w)[k]) {
        assert Rest(d, w)[k] == w[n + k];
      }
      LettersCover(d, Rest(d, w));
    }
  }

  lemma {:induction false} LetterFound(d: Dictionary, w: string)
    requires d.WellFormed() && w != "" && HasLetter(d, w[0])
    ensures Found(d, w).Some?
  {
    var p := d.prefixes[FirstPrefix(d.prefixes, w[0], 0)];
    if p.size != 1 {
      var j :| p.index <= j < p.index + p.size && d.list[j].str == [w[0]];
      assert d.ListOk(d.list[j]);
      assert w[..1] == [w[0]][..1];
      MatchExists(d.list, w, p.index, p.index + p.size, j);
    }
  }

  lemma {:induction false} LettersCoverWords(d: Dictionary, words: seq<string>)
    requires d.WellFormed() && forall k :: 0 <= k < |Join(words)| ==> HasLetter(d, Join(words)[k])
    ensures AllCovered(d, words)
  {
    hide HasLetter, Covered;
    if words != [] {
      var isLast := |words| == 1;
      var w, text := Spoken(words[0], isLast), Join(words);
      forall k | 0 <= k < |w| ensures HasLetter(d, w[k]) {
        assert w[k] == text[k];
      }
      LettersCover(d, w);
      if !isLast {
        var n := |words[0]| + 1;
        forall k | 0 <= k < |Join(words[1..])| ensures HasLetter(d, Join(words[1..])[k]) {
          assert Join(words[1..])[k] == text[n + k];
        }
        LettersCoverWords(d, words[1..]);
      }
    }
  }

  // With a one-character entry for every character of the text, the text always comes back.
  lemma {:induction false} AlphabetRoundTrip(d: Dictionary, text: string)
    requires d.WellFormed() && forall k :: 0 <= k < |text| ==> HasLetter(d, text[k])
    ensures Decoded(d, Parse(Encoded(TextTokens(d, Split(text, 0))))) == text
  {
    hide HasLetter, Decoded, TextTokens;
    JoinSplit(text, 0);
    assert text[0..] == text;
    LettersCoverWords(d, Split(text, 0));
    TextRoundTrip(d, text);
  }
}
