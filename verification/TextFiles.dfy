/** Text files, read line by line into a buffer. */
module TextFiles {
  import opened MimeTypes

  /** How much one call of `fgets` with a buffer of `size` takes: a line, or as much of it as fits. */
  function Taken(text: string, size: nat): (n: nat)
    requires size > 1 && text != ""
    ensures 0 < n <= |text| && n < size && forall k :: 0 <= k < n - 1 ==> text[k] != '\n'
    ensures n == |text| || text[n - 1] == '\n' || n == size - 1
  {
    var i := Index(text, '\n');
    if i < |text| && i + 1 < size then i + 1 else if |text| < size then |text| else size - 1
  }

  /** What successive calls give. */
  function Fgets(text: string, size: nat): seq<string>
    requires size > 1
    decreases |text|
  {
    if text == "" then []
    else
      var n := Taken(text, size);
      [text[..n]] + Fgets(text[n..], size)
  }

  /** Texts one after the other. */
  function Joined(lines: seq<string>): string {
    if lines == [] then "" else Joined(lines[..|lines| - 1]) + lines[|lines| - 1]
  }

  lemma {:induction false} JoinedConcat(a: seq<string>, b: seq<string>)
    ensures Joined(a + b) == Joined(a) + Joined(b)
  {
    if b == [] {
      assert a + b == a;
    } else {
      var n := |b| - 1;
      assert (a + b)[..|a| + n] == a + b[..n];
      JoinedConcat(a, b[..n]);
    }
  }

  lemma JoinedFirst(first: string, rest: seq<string>)
    ensures Joined([first] + rest) == first + Joined(rest)
  {
    JoinedConcat([first], rest);
    assert [first][..0] == [] && Joined([first]) == first;
  }

  /** The line fits the buffer and has its only newline at the end. */
  predicate IsLine(line: string, size: nat) {
    0 < |line| < size && line[|line| - 1] == '\n' && forall i :: 0 <= i < |line| - 1 ==> line[i] != '\n'
  }

  /** Lines that fit come back one by one. */
  lemma {:induction false} LinesOfText(lines: seq<string>, size: nat)
    requires size > 1 && forall i :: 0 <= i < |lines| ==> IsLine(lines[i], size)
    ensures Fgets(Joined(lines), size) == lines
    decreases |lines|
  {
    if lines != [] {
      var first, rest := lines[0], Joined(lines[1..]);
      assert lines == [first] + lines[1..];
      JoinedFirst(first, lines[1..]);
      var text := first + rest;
      IndexIs(text, '\n', |first| - 1);
      assert Taken(text, size) == |first|;
      assert text[..|first|] == first && text[|first|..] == rest;
      LinesOfText(lines[1..], size);
    }
  }

  /** A piece is not empty, fits the buffer, and has a newline only at its end. */
  predicate IsPiece(piece: string, size: nat) {
    0 < |piece| < size && forall i :: 0 <= i < |piece| - 1 ==> piece[i] != '\n'
  }

  /** One call: what it gives, and what is left. */
  lemma FgetsStep(text: string, size: nat) returns (first: string, rest: string)
    requires size > 1 && text != ""
    ensures Fgets(text, size) == [first] + Fgets(rest, size) && text == first + rest && IsPiece(first, size)
    ensures rest != "" ==> first[|first| - 1] == '\n' || |first| == size - 1
  {
    hide Taken;
    var n := Taken(text, size);
    first, rest := text[..n], text[n..];
  }

  /** A piece that is not the last one ends its line or fills the buffer. */
  predicate Complete(pieces: seq<string>, i: nat, size: nat)
    requires i < |pieces|
  {
    && IsPiece(pieces[i], size)
    && (i < |pieces| - 1 ==> pieces[i][|pieces[i]| - 1] == '\n' || |pieces[i]| == size - 1)
  }

  /** Nothing of the text is lost, and it is cut only behind newlines and where the buffer is full. */
  lemma {:induction false} FgetsPieces(text: string, size: nat)
    requires size > 1
    ensures Joined(Fgets(text, size)) == text
    ensures forall i {:trigger Complete(Fgets(text, size), i, size)} :: 0 <= i < |Fgets(text, size)| ==> Complete(Fgets(text, size), i, size)
    decreases |text|
  {
    if text != "" {
      var first, rest := FgetsStep(text, size);
      hide Fgets;
      FgetsPieces(rest, size);
      var pieces, all := Fgets(rest, size), Fgets(text, size);
      JoinedFirst(first, pieces);
      FgetsNone(rest, size);
      hide IsPiece;
      forall i | 0 <= i < |all| ensures Complete(all, i, size) {
        if i > 0 {
          assert all[i] == pieces[i - 1] && Complete(pieces, i - 1, size);
        }
      }
    }
  }

  lemma FgetsNone(text: string, size: nat)
    requires size > 1
    ensures Fgets(text, size) == [] <==> text == ""
  {
  }
}
