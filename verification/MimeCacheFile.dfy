/** One small mapped file, and what the lookups find in it. */
module MimeCacheFile {
  import opened CStrings
  import opened PackedBuffer
  import opened GlobTrie
  import opened GlobLookup
  import opened GlobHeap
  import opened Magic
  import opened MagicRules
  import opened MimeSubclass
  import GlobCache
  import MagicCache

  /** The suffix ".c" and the bytes "#!", of the second its upper half, stand for "t/c"; "a/b" is another name of it,
      and "t/p" its parent. */
  function Words(): (ws: seq<nat>)
    ensures |ws| == 45
  {
    [
      0x0001_0002, 44, 56, 0, 76, 0, 120,  // 0: versions, offsets of the tables
      0x612f_6200, 0x742f_6300, 0x742f_7000, 0x2321_fff0,  // 28: the strings, the bytes and the mask
      1, 28, 32,  // 44: one alias
      1, 32, 68,  // 56: one type with parents
      1, 36,  // 68: its parent
      1, 84,  // 76: one last character
      99, 1, 96,  // 84: 'c', one child
      46, 1, 108,  // 96: '.', one child
      0, 32, 50,  // 108: a type and its weight
      1, 3, 132,  // 120: one section
      50, 32, 1, 148,  // 132: priority, type, one matchlet
      0, 1, 1, 2, 40, 42, 0, 0  // 148: start, range, word, length, value, mask, no children
    ]
  }

  function File(): seq<Byte> {
    Bytes(Words())
  }

  /** Where the tables are. */
  lemma HeaderWords()
    ensures |File()| == 180
    ensures U32(File(), 4) == 44 && U32(File(), 8) == 56 && U32(File(), 16) == 76
    ensures U32(File(), 24) == 120
  {
    var ws := Words();
    hide Bytes, U32;
    WordAt(ws, 1);
    WordAt(ws, 2);
    WordAt(ws, 4);
    WordAt(ws, 6);
  }

  /** The alias. */
  lemma AliasWords()
    ensures |File()| == 180
    ensures U32(File(), 44) == 1 && U32(File(), 48) == 28 && U32(File(), 52) == 32
  {
    var ws := Words();
    hide Bytes, U32;
    WordAt(ws, 11);
    WordAt(ws, 12);
    WordAt(ws, 13);
  }

  /** The type with a parent. */
  lemma ParentWords()
    ensures |File()| == 180
    ensures U32(File(), 56) == 1 && U32(File(), 60) == 32 && U32(File(), 64) == 68
  {
    var ws := Words();
    hide Bytes, U32;
    WordAt(ws, 14);
    WordAt(ws, 15);
    WordAt(ws, 16);
  }

  /** Its parents. */
  lemma ParentListWords()
    ensures |File()| == 180
    ensures U32(File(), 68) == 1 && U32(File(), 72) == 36
  {
    var ws := Words();
    hide Bytes, U32;
    WordAt(ws, 17);
    WordAt(ws, 18);
  }

  /** The last characters. */
  lemma SuffixWords()
    ensures |File()| == 180
    ensures U32(File(), 76) == 1 && U32(File(), 80) == 84 && U32(File(), 84) == 99
    ensures U32(File(), 88) == 1 && U32(File(), 92) == 96
  {
    var ws := Words();
    hide Bytes, U32;
    WordAt(ws, 19);
    WordAt(ws, 20);
    WordAt(ws, 21);
    WordAt(ws, 22);
    WordAt(ws, 23);
  }

  /** The character before, and the type. */
  lemma EntryWords()
    ensures |File()| == 180
    ensures U32(File(), 96) == 46 && U32(File(), 100) == 1 && U32(File(), 104) == 108
  {
    var ws := Words();
    hide Bytes, U32;
    WordAt(ws, 24);
    WordAt(ws, 25);
    WordAt(ws, 26);
  }

  lemma TypeWords()
    ensures |File()| == 180
    ensures U32(File(), 108) == 0 && U32(File(), 112) == 32 && U32(File(), 116) == 50
  {
    var ws := Words();
    hide Bytes, U32;
    WordAt(ws, 27);
    WordAt(ws, 28);
    WordAt(ws, 29);
  }

  /** The magic table. */
  lemma MagicWords()
    ensures |File()| == 180
    ensures U32(File(), 120) == 1 && U32(File(), 128) == 132
  {
    var ws := Words();
    hide Bytes, U32;
    WordAt(ws, 30);
    WordAt(ws, 32);
  }

  /** Its section. */
  lemma SectionWords()
    ensures |File()| == 180
    ensures U32(File(), 132) == 50 && U32(File(), 136) == 32 && U32(File(), 140) == 1
    ensures U32(File(), 144) == 148
  {
    var ws := Words();
    hide Bytes, U32;
    WordAt(ws, 33);
    WordAt(ws, 34);
    WordAt(ws, 35);
    WordAt(ws, 36);
  }

  /** Its matchlet. */
  lemma MatchletWords()
    ensures |File()| == 180
    ensures U32(File(), 148) == 0 && U32(File(), 152) == 1 && U32(File(), 160) == 2
    ensures U32(File(), 164) == 40
  {
    var ws := Words();
    hide Bytes, U32;
    WordAt(ws, 37);
    WordAt(ws, 38);
    WordAt(ws, 40);
    WordAt(ws, 41);
  }

  lemma MatchletEndWords()
    ensures |File()| == 180
    ensures U32(File(), 168) == 42 && U32(File(), 172) == 0 && U32(File(), 176) == 0
  {
    var ws := Words();
    hide Bytes, U32;
    WordAt(ws, 42);
    WordAt(ws, 43);
    WordAt(ws, 44);
  }

  lemma TextBytes(k: nat)
    requires 7 <= k <= 10
    ensures |File()| == 180
    ensures var w := if k == 7 then 0x612f_6200 else if k == 8 then 0x742f_6300 else if k == 9 then 0x742f_7000 else 0x2321_fff0;
      var f, q := File(), 4 * k;
      f[q] == w / 0x100_0000 && f[q + 1] == w / 0x1_0000 % 0x100 && f[q + 2] == w / 0x100 % 0x100 && f[q + 3] == w % 0x100
  {
    hide Bytes;
    BytesOfWord(Words(), k);
  }

  lemma Strings()
    ensures StringAt(File(), 28) == "a/b" && StringAt(File(), 32) == "t/c" && StringAt(File(), 36) == "t/p"
    ensures File()[40..42] == [35, 33] && File()[42..44] == [255, 240]
  {
    hide File;
    var f := File();
    TextBytes(7);
    TextBytes(8);
    TextBytes(9);
    TextBytes(10);
    Three(f, 28, 'a', '/', 'b');
    Three(f, 32, 't', '/', 'c');
    Three(f, 36, 't', '/', 'p');
  }

  lemma Three(f: seq<Byte>, at: nat, a: char, b: char, c: char)
    requires at + 4 <= |f| && 0 < a as int < 256 && 0 < b as int < 256 && 0 < c as int < 256
    requires f[at] == a as int && f[at + 1] == b as int && f[at + 2] == c as int && f[at + 3] == 0
    ensures StringAt(f, at) == [a, b, c]
  {
    assert StringAt(f, at + 3) == [];
    assert StringAt(f, at + 2) == [c];
    assert StringAt(f, at + 1) == [b, c];
  }

  // ----- suffixes -----

  function Type(): Glob { Glob("t/c", 50, false) }

  function Suffixes(): seq<Trie> {
    [Trie('c', None, [Trie('.', None, [Trie(NUL, Some(Type()), [])])])]
  }

  lemma TypePacked()
    ensures GlobCache.PackedNode(File(), 108, Trie(NUL, Some(Type()), []))
  {
    hide File, U32;
    TypeWords();
    Strings();
  }

  lemma DotPacked()
    ensures GlobCache.PackedNode(File(), 96, Trie('.', None, [Trie(NUL, Some(Type()), [])]))
  {
    hide File, U32, Type;
    EntryWords();
    TypeWords();
    TypePacked();
    var kids := [Trie(NUL, Some(Type()), [])];
    assert forall i {:trigger kids[i]} :: 0 <= i < 1 ==> 108 + GlobCache.ENTRY * i == 108;
  }

  lemma SuffixesFormed()
    ensures Formed(Suffixes())
  {
    var dot := Suffixes()[0].kids;
    assert FormedNode(dot[0].kids[0]) && Formed(dot[0].kids);
    assert FormedNode(dot[0]) && Formed(dot);
    assert FormedNode(Suffixes()[0]);
  }

  lemma SuffixesPacked()
    ensures GlobCache.Holding(File(), Suffixes())
  {
    hide File, U32, Type;
    HeaderWords();
    SuffixWords();
    DotPacked();
    SuffixesFormed();
    var ts := Suffixes();
    assert GlobCache.PackedNode(File(), 84, ts[0]) by {
      var kids := ts[0].kids;
      assert forall i {:trigger kids[i]} :: 0 <= i < 1 ==> 96 + GlobCache.ENTRY * i == 96;
    }
    assert forall i {:trigger ts[i]} :: 0 <= i < 1 ==> 84 + GlobCache.ENTRY * i == 84;
  }

  /** The file answers for the name "a.c", and not for "c.a". */
  lemma SuffixFound()
    ensures Lookup(Suffixes(), FromEnd("a.c", 3), true) == [Glob("t/c", 50, false)]
    ensures Lookup(Suffixes(), FromEnd("c.a", 3), true) == []
  {
    assert "a.c"[0] == 'a' && !Found(Suffixes(), 'a');
    var dot := Suffixes()[0].kids;
    var end := dot[0].kids;
    assert FromEnd("a.c", 3) == "c.a" && FromEnd("c.a", 3) == "a.c";
    assert Extras(end) == [Type()] + Extras([]);
    assert Lookup(end, "a", true) == [];
    assert LookupAt(dot[0], "a", true) == Eligible(TypesOf(dot[0]), true);
    assert Lookup(dot, ".a", true) == [Type()];
  }

  // ----- magic -----

  function Rule(): Matchlet { Matchlet(0, 0, [35, 33], Some([255, 240]), 1, 1) }

  function Sections(): seq<Section> { [Section("t/c", 50, [Rule()])] }

  lemma RulePacked()
    ensures MagicCache.PackedOne(File(), 148, Rule())
  {
    hide File, U32;
    MatchletWords();
    MatchletEndWords();
    Strings();
  }

  lemma SectionsPacked()
    ensures MagicCache.Holding(File(), Sections())
  {
    hide File, U32;
    HeaderWords();
    MagicWords();
    SectionWords();
    MatchletEndWords();
    Strings();
    RulePacked();
    var ms := [Rule()];
    var s := Sections()[0];
    assert Parse([], 1) == Parsed(Nil, []) && Parse([], 0) == Parsed(Nil, []);
    assert ms[1..] == [];
    assert Parse(ms, 0).forest == More(Rule(), Nil, Nil);
    assert MagicCache.PackedSection(File(), 132, s);
    var secs := Sections();
    assert forall i {:trigger secs[i]} :: 0 <= i < 1 ==> 132 + MagicCache.SECTION * i == 132;
  }

  /** One matchlet without children accepts what it fits. */
  lemma RuleDecides(data: seq<Byte>)
    ensures MagicRules.Accepts(Sections()[0], data) <==> FitsAt(Rule(), data, 0)
  {
    var ms := [Rule()];
    assert ms[1..] == [];
    if Fits(Rule(), data) {
      var i :| Rule().offset <= i < Rule().offset + Rule().rangeLength && FitsAt(Rule(), data, i);
    }
  }

  /** Data that begin with "#!" are of this type, also with another lower half of the second byte. */
  lemma MagicFound()
    ensures MagicRules.Accepts(Sections()[0], [35, 33, 10]) && MagicRules.Accepts(Sections()[0], [35, 47])
  {
    hide MagicRules.Accepts;
    RuleDecides([35, 33, 10]);
    RuleDecides([35, 47]);
  }

  lemma MagicNotFound()
    ensures !MagicRules.Accepts(Sections()[0], [35, 49]) && !MagicRules.Accepts(Sections()[0], [33, 35]) && !MagicRules.Accepts(Sections()[0], [35])
  {
    hide MagicRules.Accepts;
    RuleDecides([35, 49]);
    RuleDecides([33, 35]);
    RuleDecides([35]);
    assert !ByteFits(Rule(), [35, 49], 0, 1);
    assert !ByteFits(Rule(), [33, 35], 0, 0);
  }

  // ----- names and parents -----

  function Names(): Cached { Cached(["a/b"], ["t/c"], ["t/c"], [["t/p"]]) }

  lemma NamesHeld()
    ensures MimeSubclass.Holds(File(), Names())
  {
    hide File, U32;
    HeaderWords();
    AliasWords();
    ParentWords();
    ParentListWords();
    Strings();
  }

  lemma NamesFound()
    ensures AliasOf(Names(), "a/b") == Some("t/c") && AliasOf(Names(), "t/c") == None
    ensures ParentsOf(Names(), "t/c") == ["t/p"] && ParentsOf(Names(), "t/p") == []
  {
  }
}
