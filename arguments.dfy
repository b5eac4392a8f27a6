/** The argv-like array the client builds from a command line typed at its prompt: the
    words of the line, each copied into its own NUL-terminated byte array, with an empty
    string in front where a program name would be. The ghost set `freed` records which of
    the arrays `delete[]` has released, so that the destructor's effect can be stated. */
module Arguments {
  import opened Octets

  // ---------------------------------------------------------------------------------------
  // splitting a line into words (src/arguments.cpp:41-43)
  // ---------------------------------------------------------------------------------------

  /** Length of the longest prefix of `s` without whitespace. */
  function WordRun(s: Bytes): (k: nat)
    ensures k <= |s|
    ensures forall i | 0 <= i < k :: !IsSpace(s[i])
    ensures k < |s| ==> IsSpace(s[k])
  {
    if s != [] && !IsSpace(s[0]) then 1 + WordRun(s[1..]) else 0
  }

  /** What `std::istream_iterator<std::string>` reads from the line: skip whitespace, take
      the longest run of other bytes, and repeat until only whitespace is left. */
  function Words(line: Bytes): (ws: seq<Bytes>)
    ensures forall i | 0 <= i < |ws| :: ws[i] != [] && forall j | 0 <= j < |ws[i]| :: !IsSpace(ws[i][j])
    decreases |line|
  {
    var t := SkipSpace(line);
    if t == [] then []
    else
      SkipSpaceParts(line);
      var k := WordRun(t);
      [t[..k]] + Words(t[k..])
  }

  /** Words joined by single spaces. */
  function Unwords(ws: seq<Bytes>): Bytes
  {
    if ws == [] then []
    else if |ws| == 1 then ws[0]
    else ws[0] + [32 as byte] + Unwords(ws[1..])
  }

  predicate IsWord(w: Bytes)
  {
    w != [] && forall j | 0 <= j < |w| :: !IsSpace(w[j])
  }

  /** A run of non-space bytes is taken whole when whitespace or the end follows it. */
  lemma {:induction false} WordRunIs(w: Bytes, rest: Bytes)
    requires forall j | 0 <= j < |w| :: !IsSpace(w[j])
    requires rest == [] || IsSpace(rest[0])
    ensures WordRun(w + rest) == |w|
    decreases |w|
  {
    if w != [] {
      assert (w + rest)[1..] == w[1..] + rest;
      WordRunIs(w[1..], rest);
    }
  }

  /** Only what follows the leading whitespace matters to the split. */
  lemma WordsAfterSpace(a: Bytes, b: Bytes)
    requires SkipSpace(a) == SkipSpace(b)
    ensures Words(a) == Words(b)
  {
  }

  /** A word followed by whitespace and more splits off first. */
  lemma WordsFirst(w: Bytes, rest: Bytes)
    requires IsWord(w) && (rest == [] || IsSpace(rest[0]))
    ensures Words(w + rest) == [w] + Words(rest)
  {
    var t := w + rest;
    SkipNothing(t);
    WordRunIs(w, rest);
    assert t[..|w|] == w && t[|w|..] == rest;
  }

  /** Splitting words joined by single spaces gives the words back. */
  lemma {:induction false} WordsOfUnwords(ws: seq<Bytes>)
    requires forall i | 0 <= i < |ws| :: IsWord(ws[i])
    ensures Words(Unwords(ws)) == ws
    decreases |ws|
  {
    if ws == [] {
      assert SkipSpace([]) == [];
    } else if |ws| == 1 {
      WordsFirst(ws[0], []);
      assert ws[0] + [] == ws[0];
      assert Words([]) == [] by { assert SkipSpace([]) == []; }
    } else {
      var r := Unwords(ws[1..]);
      WordsOfUnwords(ws[1..]);
      assert ws[0] + [32 as byte] + r == ws[0] + ([32 as byte] + r);
      WordsFirst(ws[0], [32 as byte] + r);
      UnwordsStart(ws[1..]);
      assert SkipSpace([32 as byte] + r) == SkipSpace(r) by { assert ([32 as byte] + r)[1..] == r; }
      WordsAfterSpace([32 as byte] + r, r);
      assert ws == [ws[0]] + ws[1..];
    }
  }

  /** Joined words start with a word byte. */
  lemma UnwordsStart(ws: seq<Bytes>)
    requires ws != [] && forall i | 0 <= i < |ws| :: IsWord(ws[i])
    ensures Unwords(ws) != [] && !IsSpace(Unwords(ws)[0])
  {
    assert IsWord(ws[0]);
  }

  // ---------------------------------------------------------------------------------------
  // strncpy (src/arguments.cpp:54)
  // ---------------------------------------------------------------------------------------

  /** The length of the C string at the start of `src`: up to its first NUL. */
  function CStrLen(src: Bytes): (k: nat)
    ensures k <= |src|
    ensures forall i | 0 <= i < k :: src[i] != NUL
    ensures k < |src| ==> src[k] == NUL
  {
    if src == [] || src[0] == NUL then 0 else 1 + CStrLen(src[1..])
  }

  /** The C string ends at the first NUL. */
  lemma {:induction false} CStrLenIs(src: Bytes, j: nat)
    requires j < |src| && src[j] == NUL && forall i | 0 <= i < j :: src[i] != NUL
    ensures CStrLen(src) == j
    decreases j
  {
    if j > 0 {
      assert src[1..][j - 1] == NUL;
      CStrLenIs(src[1..], j - 1);
    }
  }

  /** The `n` bytes `strncpy` writes: the C string at the start of `src`, then NUL padding. */
  function StrNCpy(src: Bytes, n: nat): Bytes
  {
    seq(n, k requires 0 <= k < n => if k < CStrLen(src) then src[k] else NUL)
  }

  /** `strncpy(dst, src, n)`: copies up to the first NUL of `src`, then pads with NUL. */
  method StrNCopy(dst: array<byte>, src: Bytes, n: nat)
    requires n <= dst.Length
    modifies dst
    ensures dst[..] == StrNCpy(src, n) + old(dst[n..])
  {
    var i := 0;
    while i < n && i < |src| && src[i] != NUL
      invariant 0 <= i <= n && i <= CStrLen(src)
      invariant forall k | 0 <= k < dst.Length :: dst[k] == if k < i then src[k] else old(dst[k])
    {
      dst[i] := src[i];
      i := i + 1;
    }
    while i < n
      invariant 0 <= i <= n && (CStrLen(src) <= i || i == n)
      invariant forall k | 0 <= k < dst.Length ::
                  dst[k] == if k < i then (if k < CStrLen(src) then src[k] else NUL) else old(dst[k])
    {
      dst[i] := NUL;
      i := i + 1;
    }
    assert dst[..] == StrNCpy(src, n) + old(dst[n..]);
  }

  /** A word without NUL bytes, followed by its terminator, is copied exactly. */
  lemma StrNCpyOfWord(w: Bytes)
    requires NUL !in w
    ensures StrNCpy(w + [NUL], |w| + 1) == w + [NUL]
  {
    var src := w + [NUL];
    forall i | 0 <= i < |w| ensures src[i] != NUL {
      assert src[i] == w[i];
    }
    CStrLenIs(src, |w|);
  }

  /** A word with a NUL byte inside is cut there, and the rest of its array is NUL. */
  lemma StrNCpyCutsAtNul(w: Bytes, j: nat)
    requires j < |w| && w[j] == NUL && NUL !in w[..j]
    ensures var c := StrNCpy(w + [NUL], |w| + 1);
            c[..j] == w[..j] && forall k | j <= k < |c| :: c[k] == NUL
  {
    var src := w + [NUL];
    forall i | 0 <= i < j ensures src[i] != NUL {
      assert src[i] == w[..j][i];
    }
    CStrLenIs(src, j);
  }

  // ---------------------------------------------------------------------------------------
  // CustomArgLine (src/arguments.cpp:26-56)
  // ---------------------------------------------------------------------------------------

  class CustomArgLine {
    var separated: array?<array<byte>>
    var count: int
    ghost var freed: set<object>

    /** `count` and `separated` describe each other: no array at all when the count is zero,
        one entry per element otherwise. */
    ghost predicate Valid()
      reads this
    {
      0 <= count && (count == 0 <==> separated == null)
      && (separated != null ==> separated.Length == count)
    }

    /** The constructor: `count` is one more than the number of words, element 0 holds an
        empty string, and element `i` holds word `i - 1` as `strncpy` copies it into an
        array one longer than the word. */
    constructor (line: Bytes)
      ensures Valid() && freed == {}
      ensures count == |Words(line)| + 1
      ensures separated != null && fresh(separated)
      ensures separated[0][..] == [NUL]
      ensures forall i | 1 <= i < count ::
                separated[i][..] == StrNCpy(Words(line)[i - 1] + [NUL], |Words(line)[i - 1]| + 1)
    {
      var words := Words(line);
      var n := |words| + 1;
      var first := new byte[1];
      first[0] := NUL;
      var sep := new array<byte>[n](_ => first);
      var i := 1;
      while i < n
        invariant 1 <= i <= n
        invariant sep[0] == first && first[..] == [NUL]
        invariant forall j | 1 <= j < i :: sep[j] != first
        invariant forall j | 1 <= j < i :: sep[j][..] == StrNCpy(words[j - 1] + [NUL], |words[j - 1]| + 1)
      {
        var word := words[i - 1];
        var len := |word|;
        var a := new byte[len + 1];
        StrNCopy(a, word + [NUL], len + 1);
        assert a[..] == StrNCpy(word + [NUL], len + 1);
        sep[i] := a;
        i := i + 1;
      }
      count := n;
      separated := sep;
      freed := {};
    }

    /** The `delete[] separated[i]` loop for `i` below `n`. */
    method FreeWords(n: nat)
      requires separated != null && n <= separated.Length
      modifies this
      ensures count == old(count) && separated == old(separated)
      ensures freed == old(freed) + set k | 0 <= k < n :: separated[k]
    {
      var i := 0;
      while i < n
        invariant 0 <= i <= n
        invariant count == old(count) && separated == old(separated)
        invariant freed == old(freed) + set k | 0 <= k < i :: separated[k]
      {
        assert (set k | 0 <= k < i + 1 :: separated[k]) == (set k | 0 <= k < i :: separated[k]) + {separated[i]};
        freed := freed + {separated[i]};
        i := i + 1;
      }
    }

    /** The destructor as written: `count` is zeroed before the loop reads it as its bound,
        so no word array is released, only the outer array. */
    method Destroy()
      requires Valid()
      modifies this
      ensures Valid() && count == 0 && separated == null
      ensures old(count) != 0 ==> freed == old(freed) + {old(separated)}
      ensures old(count) == 0 ==> freed == old(freed)
    {
      if count != 0 {
        count := 0;
        FreeWords(count);
        freed := freed + {separated};
        separated := null;
      }
    }

    /** The destructor with the loop run before `count` is zeroed: every array is released. */
    method DestroyAll()
      requires Valid()
      modifies this
      ensures Valid() && count == 0 && separated == null
      ensures old(count) != 0 ==>
                freed == old(freed) + {old(separated)} + set k | 0 <= k < old(count) :: old(separated[k])
      ensures old(count) == 0 ==> freed == old(freed)
    {
      if count != 0 {
        FreeWords(count);
        count := 0;
        freed := freed + {separated};
        separated := null;
      }
    }
  }

  /** Building the argument line from words joined by spaces and destroying it leaves every
      word array allocated, each still holding its word: none of them is released. */
  method DestroyLeaksWords(ws: seq<Bytes>) returns (line: CustomArgLine, words: seq<array<byte>>)
    requires forall i | 0 <= i < |ws| :: IsWord(ws[i]) && NUL !in ws[i]
    ensures line.count == 0 && line.separated == null
    ensures |words| == |ws|
    ensures forall i | 0 <= i < |ws| :: words[i][..] == ws[i] + [NUL] && words[i] !in line.freed
  {
    WordsOfUnwords(ws);
    line := new CustomArgLine(Unwords(ws));
    words := line.separated[1..];
    forall i | 0 <= i < |ws| ensures words[i][..] == ws[i] + [NUL] {
      assert words[i] == line.separated[i + 1];
      StrNCpyOfWord(ws[i]);
    }
    line.Destroy();
  }

  /** With the corrected destructor every word array of the same line is released. */
  method DestroyAllFreesWords(ws: seq<Bytes>) returns (line: CustomArgLine, words: seq<array<byte>>)
    requires forall i | 0 <= i < |ws| :: IsWord(ws[i])
    ensures line.count == 0 && line.separated == null
    ensures |words| == |ws|
    ensures forall i | 0 <= i < |ws| :: words[i] in line.freed
  {
    WordsOfUnwords(ws);
    line := new CustomArgLine(Unwords(ws));
    words := line.separated[1..];
    ghost var outer := line.separated;
    line.DestroyAll();
    forall i | 0 <= i < |ws| ensures words[i] in line.freed {
      assert words[i] == outer[i + 1];
    }
  }
}
