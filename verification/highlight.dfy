/**
 * `highlight_text_markdown`: one left-to-right, case-insensitive pass of the
 * regular expression `k1|k2|...` (each keyword escaped, so matched
 * literally) over the text, wrapping every match as `**:orange[...]:**`.
 */
module Highlight {
  import opened Wrappers
  import opened Text
  import opened Keywords

  const Open: string := "**:orange["
  const Close: string := "]:**"

  /** `t` begins with `k` when upper and lower case are not told apart. */
  predicate StartsWithIgnoringCase(t: string, k: string) {
    |k| <= |t| && Lower(t[..|k|]) == Lower(k)
  }

  predicate NonEmptyKeywords(ws: seq<string>) {
    forall i :: 0 <= i < |ws| ==> |ws[i]| > 0
  }

  /**
   * The alternative the regular expression engine takes at the start of
   * `t`: the index of the first keyword, in list order, that matches there.
   */
  function FirstMatch(t: string, ws: seq<string>): (r: Option<nat>)
    ensures r.Some? ==> r.value < |ws| && |ws[r.value]| <= |t|
  {
    if |ws| == 0 then None
    else if StartsWithIgnoringCase(t, ws[0]) then Some(0)
    else
      match FirstMatch(t, ws[1..])
      case Some(i) => Some(i + 1)
      case None => None
  }

  /**
   * The alternative taken matches, no earlier alternative does, and there is
   * no match at all only when no keyword matches.
   */
  lemma {:induction false} FirstMatchSpec(t: string, ws: seq<string>)
    ensures var r := FirstMatch(t, ws);
      r.Some? ==> (StartsWithIgnoringCase(t, ws[r.value])
        && forall j :: 0 <= j < r.value ==> !StartsWithIgnoringCase(t, ws[j]))
    ensures FirstMatch(t, ws).None? <==> forall j :: 0 <= j < |ws| ==> !StartsWithIgnoringCase(t, ws[j])
  {
    if |ws| > 0 && !StartsWithIgnoringCase(t, ws[0]) {
      FirstMatchSpec(t, ws[1..]);
      assert forall j :: 1 <= j < |ws| ==> ws[j] == ws[1..][j - 1];
    }
  }

  /** One step of the scan: a character copied as is, or a matched run to be wrapped. */
  datatype Piece = Plain(c: char) | Marked(s: string)

  function PieceText(p: Piece): string {
    match p
    case Plain(c) => [c]
    case Marked(s) => s
  }

  /** The input text the pieces cover, wrappers left out. */
  function Erase(ps: seq<Piece>): string {
    if |ps| == 0 then "" else PieceText(ps[0]) + Erase(ps[1..])
  }

  /** Where piece `j` starts in the text. */
  function Offset(ps: seq<Piece>, j: int): int
    requires 0 <= j <= |ps|
  {
    |Erase(ps[..j])|
  }

  /**
   * Piece `p` is what the scan produces at position `pos` of `text`: a plain
   * character where no keyword matches, else the text matched by the first
   * matching keyword.
   */
  predicate PieceAt(text: string, pos: int, p: Piece, ws: seq<string>)
    requires 0 <= pos <= |text|
  {
    match p
    case Plain(c) => pos < |text| && text[pos] == c && FirstMatch(text[pos..], ws).None?
    case Marked(s) =>
      var m := FirstMatch(text[pos..], ws);
      m.Some? && s == text[pos..pos + |ws[m.value]|]
  }

  predicate ScanOf(text: string, ps: seq<Piece>, ws: seq<string>) {
    && Erase(ps) == text
    && forall j :: 0 <= j < |ps| ==> Offset(ps, j) <= |text| && PieceAt(text, Offset(ps, j), ps[j], ws)
  }

  lemma EraseCons(p: Piece, ps: seq<Piece>)
    ensures Erase([p] + ps) == PieceText(p) + Erase(ps)
  {
    assert ([p] + ps)[1..] == ps;
  }

  /** A piece found in a suffix of the text is found at the shifted position of the text. */
  lemma PieceAtShift(text: string, n: int, o: int, q: Piece, ws: seq<string>)
    requires 0 <= n <= |text| && 0 <= o <= |text| - n
    requires PieceAt(text[n..], o, q, ws)
    ensures PieceAt(text, n + o, q, ws)
  {
    assert text[n..][o..] == text[n + o..];
    match q
    case Plain(c) => {}
    case Marked(s) => {
      var m := FirstMatch(text[n + o..], ws);
      assert text[n..][o..o + |ws[m.value]|] == text[n + o..n + o + |ws[m.value]|];
    }
  }

  /** Offsets after a leading piece are shifted by that piece's length. */
  lemma OffsetCons(p: Piece, rest: seq<Piece>, j: int)
    requires 1 <= j <= |rest|
    ensures Offset([p] + rest, j) == |PieceText(p)| + Offset(rest, j - 1)
    ensures ([p] + rest)[j] == rest[j - 1]
  {
    assert ([p] + rest)[..j] == [p] + rest[..j - 1];
    EraseCons(p, rest[..j - 1]);
  }

  /** Piece `j` of `[p] + rest` sits where the scan finds it. */
  lemma ScanConsAt(text: string, p: Piece, rest: seq<Piece>, ws: seq<string>, j: int)
    requires |PieceText(p)| <= |text|
    requires PieceAt(text, 0, p, ws)
    requires ScanOf(text[|PieceText(p)|..], rest, ws)
    requires 0 <= j <= |rest|
    ensures Offset([p] + rest, j) <= |text| && PieceAt(text, Offset([p] + rest, j), ([p] + rest)[j], ws)
  {
    if j == 0 {
      ScanConsFirst(text, p, rest, ws);
    } else {
      var n := |PieceText(p)|;
      assert Offset(rest, j - 1) <= |text[n..]| && PieceAt(text[n..], Offset(rest, j - 1), rest[j - 1], ws);
      ScanConsLater(text, p, rest, ws, j);
    }
  }

  lemma ScanConsFirst(text: string, p: Piece, rest: seq<Piece>, ws: seq<string>)
    requires PieceAt(text, 0, p, ws)
    ensures Offset([p] + rest, 0) == 0 && PieceAt(text, Offset([p] + rest, 0), ([p] + rest)[0], ws)
  {
    var ps := [p] + rest;
    assert ps[..0] == [];
    assert Erase(ps[..0]) == "";
  }

  lemma ScanConsLater(text: string, p: Piece, rest: seq<Piece>, ws: seq<string>, j: int)
    requires |PieceText(p)| <= |text| && 1 <= j <= |rest|
    requires Offset(rest, j - 1) <= |text| - |PieceText(p)|
    requires PieceAt(text[|PieceText(p)|..], Offset(rest, j - 1), rest[j - 1], ws)
    ensures Offset([p] + rest, j) <= |text| && PieceAt(text, Offset([p] + rest, j), ([p] + rest)[j], ws)
  {
    var n := |PieceText(p)|;
    var o := Offset(rest, j - 1);
    var q := rest[j - 1];
    OffsetCons(p, rest, j);
    PieceAtShift(text, n, o, q, ws);
    assert PieceAt(text, n + o, q, ws);
    assert Offset([p] + rest, j) == n + o && ([p] + rest)[j] == q;
  }

  /** Putting the piece found at the start in front of a scan of the rest scans the whole. */
  lemma ScanCons(text: string, p: Piece, rest: seq<Piece>, ws: seq<string>)
    requires |PieceText(p)| <= |text| && text[..|PieceText(p)|] == PieceText(p)
    requires PieceAt(text, 0, p, ws)
    requires ScanOf(text[|PieceText(p)|..], rest, ws)
    ensures ScanOf(text, [p] + rest, ws)
  {
    var n := |PieceText(p)|;
    EraseCons(p, rest);
    assert text == text[..n] + text[n..];
    forall j | 0 <= j < |[p] + rest|
      ensures Offset([p] + rest, j) <= |text| && PieceAt(text, Offset([p] + rest, j), ([p] + rest)[j], ws)
    {
      ScanConsAt(text, p, rest, ws, j);
    }
  }

  /**
   * The `re.sub` pass: at each position take the first keyword that matches
   * there and continue after the match, or copy one character when none does.
   * The pieces cover the text exactly.
   */
  function Scan(text: string, ws: seq<string>): (r: seq<Piece>)
    requires NonEmptyKeywords(ws)
    ensures Erase(r) == text
    decreases |text|
  {
    if |text| == 0 then []
    else
      var n := match FirstMatch(text, ws) case Some(i) => |ws[i]| case None => 1;
      var p := match FirstMatch(text, ws) case Some(i) => Marked(text[..n]) case None => Plain(text[0]);
      var rest := Scan(text[n..], ws);
      EraseCons(p, rest);
      assert text[..1] == [text[0]];
      assert text == text[..n] + text[n..];
      [p] + rest
  }

  /**
   * The scan is the leftmost, first-alternative-wins, non-overlapping
   * tokenisation: each piece is what the regular expression engine finds at
   * the piece's own position.
   */
  lemma {:induction false} ScanIsLeftmostFirst(text: string, ws: seq<string>)
    requires NonEmptyKeywords(ws)
    ensures ScanOf(text, Scan(text, ws), ws)
    decreases |text|
  {
    if |text| > 0 {
      var n := match FirstMatch(text, ws) case Some(i) => |ws[i]| case None => 1;
      var p := match FirstMatch(text, ws) case Some(i) => Marked(text[..n]) case None => Plain(text[0]);
      ScanIsLeftmostFirst(text[n..], ws);
      assert text[0..] == text && text[..1] == [text[0]];
      ScanCons(text, p, Scan(text[n..], ws), ws);
    } else {
      assert Scan(text, ws) == [];
    }
  }

  /** How many pieces are wrapped matches. */
  function MarkedCount(ps: seq<Piece>): nat {
    if |ps| == 0 then 0 else (if ps[0].Marked? then 1 else 0) + MarkedCount(ps[1..])
  }

  /**
   * The Markdown the pieces render to: every match gains exactly the two
   * markers, and copied characters are output as they are.
   */
  function Render(ps: seq<Piece>): (r: string)
    ensures |r| == |Erase(ps)| + (|Open| + |Close|) * MarkedCount(ps)
    ensures MarkedCount(ps) == 0 ==> r == Erase(ps)
  {
    if |ps| == 0 then ""
    else
      match ps[0]
      case Plain(c) => [c] + Render(ps[1..])
      case Marked(s) => Open + s + Close + Render(ps[1..])
  }

  /** Rendering is piecewise: the pieces of `a + b` render to `a`'s output followed by `b`'s. */
  lemma {:induction false} RenderAppend(a: seq<Piece>, b: seq<Piece>)
    ensures Render(a + b) == Render(a) + Render(b)
    decreases |a|
  {
    if |a| > 0 {
      assert (a + b)[0] == a[0];
      assert (a + b)[1..] == a[1..] + b;
      RenderAppend(a[1..], b);
    } else {
      assert a + b == b;
    }
  }

  /** One piece alone: a copied character as itself, a match between the two markers. */
  lemma RenderOne(p: Piece)
    ensures Render([p]) == (match p case Plain(c) => [c] case Marked(s) => Open + s + Close)
  {
    assert [p][1..] == [];
  }

  predicate NoBrackets(s: string) {
    forall i :: 0 <= i < |s| ==> s[i] != '[' && s[i] != ']'
  }

  /** Deleting every `**:orange[` ... `]:**` wrapper from rendered Markdown. */
  function Unwrap(s: string): string
    decreases |s|
  {
    if Open <= s then UnwrapInside(s[|Open|..])
    else if |s| == 0 then ""
    else [s[0]] + Unwrap(s[1..])
  }

  /** Inside a wrapper: keep characters up to the closing `]:**`. */
  function UnwrapInside(s: string): string
    decreases |s|
  {
    if Close <= s then Unwrap(s[|Close|..])
    else if |s| == 0 then ""
    else [s[0]] + UnwrapInside(s[1..])
  }

  /** A rendering has no `[` among its first nine characters. */
  lemma {:induction false} RenderHead(ps: seq<Piece>)
    requires NoBrackets(Erase(ps))
    ensures forall j :: 0 <= j < 9 && j < |Render(ps)| ==> Render(ps)[j] != '['
  {
    if |ps| > 0 {
      assert Erase(ps) == PieceText(ps[0]) + Erase(ps[1..]);
      var e := Erase(ps[1..]);
      assert forall i :: 0 <= i < |e| ==> e[i] == Erase(ps)[|PieceText(ps[0])| + i];
      RenderHead(ps[1..]);
      match ps[0]
      case Plain(c) => {
        assert Erase(ps)[0] == c;
      }
      case Marked(s) => {}
    }
  }

  /** A run without `]` followed by the closing marker comes out unchanged. */
  lemma {:induction false} UnwrapInsideClose(s: string, rest: string)
    requires forall i :: 0 <= i < |s| ==> s[i] != ']'
    ensures UnwrapInside(s + Close + rest) == s + Unwrap(rest)
  {
    var t := s + Close + rest;
    if |s| == 0 {
      assert t == Close + rest;
      assert t[|Close|..] == rest;
    } else {
      assert !(Close <= t) by {
        assert t[0] == s[0];
      }
      assert t[1..] == s[1..] + Close + rest;
      UnwrapInsideClose(s[1..], rest);
    }
  }

  /** A plain character in front of a rendering is not mistaken for an opening marker. */
  lemma UnwrapPlain(c: char, ps: seq<Piece>)
    requires NoBrackets(Erase(ps))
    ensures Unwrap([c] + Render(ps)) == [c] + Unwrap(Render(ps))
  {
    var r := Render(ps);
    var t := [c] + r;
    if |t| >= |Open| {
      RenderHead(ps);
      assert t[9] == r[8];
    }
    assert !(Open <= t);
    assert t[1..] == r;
  }

  /** A wrapped run is unwrapped back to the run itself. */
  lemma UnwrapMarked(s: string, r: string)
    requires forall i :: 0 <= i < |s| ==> s[i] != ']'
    ensures Unwrap(Open + s + Close + r) == s + Unwrap(r)
  {
    var t := Open + (s + Close + r);
    assert Open + s + Close + r == t;
    assert Open <= t;
    assert t[|Open|..] == s + Close + r;
    UnwrapInsideClose(s, r);
  }

  /** Deleting the wrappers from the rendering gives back the text the pieces cover. */
  lemma {:induction false} UnwrapRender(ps: seq<Piece>)
    requires NoBrackets(Erase(ps))
    ensures Unwrap(Render(ps)) == Erase(ps)
  {
    if |ps| > 0 {
      var e := Erase(ps[1..]);
      assert Erase(ps) == PieceText(ps[0]) + e;
      assert forall i :: 0 <= i < |e| ==> e[i] == Erase(ps)[|PieceText(ps[0])| + i];
      UnwrapRender(ps[1..]);
      match ps[0]
      case Plain(c) => {
        UnwrapPlain(c, ps[1..]);
      }
      case Marked(s) => {
        assert forall i :: 0 <= i < |s| ==> s[i] == Erase(ps)[i];
        UnwrapMarked(s, Render(ps[1..]));
      }
    }
  }

  /** With no keywords the scan copies every character. */
  lemma {:induction false} ScanWithoutKeywords(text: string)
    ensures Render(Scan(text, [])) == text
    decreases |text|
  {
    if |text| > 0 {
      ScanWithoutKeywords(text[1..]);
      assert text == [text[0]] + text[1..];
    }
  }

  /**
   * `highlight_text_markdown(text, words)`. The early return for an empty
   * list agrees with the general pass, and deleting the wrappers from the
   * result gives the text back whenever the text has no square brackets.
   */
  function HighlightText(text: string, ws: seq<string>): (r: string)
    requires NonEmptyKeywords(ws)
    ensures r == Render(Scan(text, ws))
    ensures |ws| == 0 ==> r == text
    ensures NoBrackets(text) ==> Unwrap(r) == text
  {
    if |ws| == 0 then
      ScanWithoutKeywords(text);
      assert NoBrackets(text) ==> Unwrap(text) == text by {
        if NoBrackets(text) {
          UnwrapRender(Scan(text, ws));
        }
      }
      text
    else
      var ps := Scan(text, ws);
      assert NoBrackets(text) ==> Unwrap(Render(ps)) == text by {
        if NoBrackets(text) {
          UnwrapRender(ps);
        }
      }
      Render(ps)
  }

  /**
   * What a piece found at `pos` says about the text there: a plain character
   * starts no keyword match; a wrapped run equals, ignoring case, the first
   * keyword in list order that matches at `pos`, with its original casing.
   */
  lemma PieceAtMeaning(text: string, pos: int, p: Piece, ws: seq<string>)
    requires 0 <= pos <= |text| && PieceAt(text, pos, p, ws)
    ensures p.Plain? ==> forall i :: 0 <= i < |ws| ==> !StartsWithIgnoringCase(text[pos..], ws[i])
    ensures p.Marked? ==> exists i :: (0 <= i < |ws|
      && pos + |ws[i]| <= |text| && p.s == text[pos..pos + |ws[i]|]
      && Lower(p.s) == Lower(ws[i])
      && forall i' :: 0 <= i' < i ==> !StartsWithIgnoringCase(text[pos..], ws[i']))
  {
    FirstMatchSpec(text[pos..], ws);
    if p.Marked? {
      var i := FirstMatch(text[pos..], ws).value;
      assert StartsWithIgnoringCase(text[pos..], ws[i]);
      assert text[pos..][..|ws[i]|] == text[pos..pos + |ws[i]|];
    }
  }

  /** A first character that begins no keyword is copied as is. */
  lemma CopyOne(t: string, ws: seq<string>)
    requires NonEmptyKeywords(ws) && |t| > 0
    requires forall i :: 0 <= i < |ws| ==> LowerChar(t[0]) != LowerChar(ws[i][0])
    ensures Render(Scan(t, ws)) == [t[0]] + Render(Scan(t[1..], ws))
  {
    forall i | 0 <= i < |ws| ensures !StartsWithIgnoringCase(t, ws[i]) {
      if |ws[i]| <= |t| {
        assert Lower(t[..|ws[i]|])[0] == LowerChar(t[0]);
        assert Lower(ws[i])[0] == LowerChar(ws[i][0]);
      }
    }
    FirstMatchSpec(t, ws);
    assert FirstMatch(t, ws).None?;
    var ps := Scan(t, ws);
    assert ps == [Plain(t[0])] + Scan(t[1..], ws);
  }

  /** No character of `a` begins a keyword. */
  predicate BeginsNoKeyword(a: string, ws: seq<string>)
    requires NonEmptyKeywords(ws)
  {
    forall c, i :: c in a && 0 <= i < |ws| ==> LowerChar(c) != LowerChar(ws[i][0])
  }

  /** The first character of `a` is copied in front of the scan of the rest of `a + b`. */
  lemma CopyHead(a: string, b: string, ws: seq<string>)
    requires NonEmptyKeywords(ws) && |a| > 0 && BeginsNoKeyword(a, ws)
    ensures Render(Scan(a + b, ws)) == [a[0]] + Render(Scan(a[1..] + b, ws))
    ensures BeginsNoKeyword(a[1..], ws)
  {
    var t := a + b;
    assert a[0] in a && t[0] == a[0];
    CopyOne(t, ws);
    assert t[1..] == a[1..] + b;
    assert forall c :: c in a[1..] ==> c in a;
  }

  /**
   * Regrouping a string split at its first character. Kept as a lemma of its
   * own: proved inside `CopyUnmatched`, the step exhausts the solver there.
   */
  lemma ConsAssoc(a: string, r: string)
    requires |a| > 0
    ensures [a[0]] + (a[1..] + r) == a + r
  {
  }

  /** Characters that cannot begin any keyword are copied unchanged. */
  lemma {:induction false} CopyUnmatched(a: string, b: string, ws: seq<string>)
    requires NonEmptyKeywords(ws) && BeginsNoKeyword(a, ws)
    ensures Render(Scan(a + b, ws)) == a + Render(Scan(b, ws))
  {
    if |a| == 0 {
      assert a + b == b;
    } else {
      var tail := a[1..];
      CopyHead(a, b, ws);
      CopyUnmatched(tail, b, ws);
      ConsAssoc(a, Render(Scan(b, ws)));
    }
  }

  /** `potato` matches at the start of `Potato...`, which is wrapped with its own casing. */
  lemma PotatoAtStart(tail: string)
    ensures Scan("Potato" + tail, ["potato"]) == [Marked("Potato")] + Scan(tail, ["potato"])
  {
    var b := "Potato" + tail;
    assert b[..6] == "Potato" && b[6..] == tail;
    assert Lower("Potato") == "potato" by {
      assert forall i :: 0 <= i < 6 ==> LowerChar("Potato"[i]) == "potato"[i];
    }
    assert Lower("potato") == "potato" by {
      assert forall i :: 0 <= i < 6 ==> LowerChar("potato"[i]) == "potato"[i];
    }
    assert FirstMatch(b, ["potato"]) == Some(0);
  }

  /** Only `Potato` is wrapped, with its own casing; the rest is kept. */
  lemma MashPotatoExample()
    ensures HighlightText("Mash Potato", ["potato"]) == "Mash " + (Open + "Potato" + Close)
  {
    var ws := ["potato"];
    assert "Mash Potato" == "Mash " + ("Potato" + "");
    assert forall c :: c in "Mash " ==> c != 'p' && c != 'P';
    CopyUnmatched("Mash ", "Potato" + "", ws);
    PotatoAtStart("");
    assert "Potato" + "" == "Potato";
    var rest := Scan("", ws);
    assert rest == [];
    var ps := [Marked("Potato")] + rest;
    assert ps[1..] == rest;
    assert Render(ps) == Open + "Potato" + Close + Render(rest);
    assert Render(ps) == Open + "Potato" + Close;
    var whole := Render(Scan("Mash " + ("Potato" + ""), ws));
    assert whole == "Mash " + Render(Scan("Potato" + "", ws));
    assert whole == "Mash " + (Open + "Potato" + Close);
    assert HighlightText("Mash Potato", ws) == whole;
  }

  /**
   * Lines 137 and 154-159 together: the words typed by the user are split
   * and trimmed, given their plural variants, and the variants (in whatever
   * order the set yields them) highlight one meal text.
   */
  method HighlightMeal(meal: string, input: string) returns (r: string)
    ensures exists ws :: ((forall k :: k in ws <==> k in Expand(KeywordsFrom(input)))
      && NonEmptyKeywords(ws) && r == HighlightText(meal, ws))
    ensures |KeywordsFrom(input)| == 0 ==> r == meal
    ensures NoBrackets(meal) ==> Unwrap(r) == meal
  {
    var words := KeywordsFrom(input);
    var variants := ExpandWordVariants(words);
    VariantsNonEmpty(words, variants);
    assert forall k :: k in variants <==> k in Expand(words);
    r := HighlightText(meal, variants);
  }

  /** `Potatoes` begins, ignoring case, with both `potato` and `potatoes`. */
  lemma PotatoesMatchesBoth()
    ensures StartsWithIgnoringCase("Potatoes", "potato")
    ensures StartsWithIgnoringCase("Potatoes", "potatoes")
  {
    var t := "Potatoes";
    assert t[..6] == "Potato" && t[..8] == t;
    assert Lower("Potato") == "potato" by {
      assert forall i :: 0 <= i < 6 ==> LowerChar("Potato"[i]) == "potato"[i];
    }
    assert Lower("potato") == "potato" by {
      assert forall i :: 0 <= i < 6 ==> LowerChar("potato"[i]) == "potato"[i];
    }
    assert Lower("Potatoes") == "potatoes" by {
      assert forall i :: 0 <= i < 8 ==> LowerChar("Potatoes"[i]) == "potatoes"[i];
    }
    assert Lower("potatoes") == "potatoes" by {
      assert forall i :: 0 <= i < 8 ==> LowerChar("potatoes"[i]) == "potatoes"[i];
    }
  }

  /**
   * Keyword order decides overlapping matches: with `potato` listed first
   * only the stem of `Potatoes` is wrapped, with `potatoes` first the whole
   * word is.
   */
  lemma OrderDecidesOverlap()
    ensures Scan("Potatoes", ["potato", "potatoes"])[0] == Marked("Potato")
    ensures Scan("Potatoes", ["potatoes", "potato"])[0] == Marked("Potatoes")
  {
    PotatoesMatchesBoth();
    assert FirstMatch("Potatoes", ["potato", "potatoes"]) == Some(0);
    assert FirstMatch("Potatoes", ["potatoes", "potato"]) == Some(0);
    assert "Potatoes"[..6] == "Potato" && "Potatoes"[..8] == "Potatoes";
  }

  /** A wrapped `Potato` in front of `tail` renders as the markers around it. */
  lemma PotatoWrapped(tail: string)
    ensures Render(Scan("Potato" + tail, ["potato"])) == Open + "Potato" + Close + Render(Scan(tail, ["potato"]))
  {
    PotatoAtStart(tail);
    var ps := [Marked("Potato")] + Scan(tail, ["potato"]);
    assert ps[1..] == Scan(tail, ["potato"]);
  }

  /** No character of the markers begins `potato`. */
  lemma MarkersBeginNoPotato()
    ensures BeginsNoKeyword(Open, ["potato"]) && BeginsNoKeyword(Close, ["potato"])
  {
    assert forall c :: c in Open ==> c != 'p' && c != 'P';
    assert forall c :: c in Close ==> c != 'p' && c != 'P';
  }

  /** The opening marker holds the word `orange`, so that keyword matches inside it. */
  lemma MarkerHoldsOrange()
    ensures StartsWithIgnoringCase(Open[3..], "orange")
    ensures FirstMatch(Open[3..], ["orange"]) == Some(0)
  {
    assert Open[3..][..6] == "orange";
  }

  /** A lone `Potato` is wrapped once. */
  lemma HighlightPotato()
    ensures HighlightText("Potato", ["potato"]) == Open + "Potato" + Close
  {
    var ws := ["potato"];
    PotatoWrapped("");
    assert "Potato" + "" == "Potato";
    assert Scan("", ws) == [];
  }

  /** The closing marker begins no keyword, so it is copied as is. */
  lemma CloseCopied()
    ensures Render(Scan(Close, ["potato"])) == Close
  {
    var ws := ["potato"];
    MarkersBeginNoPotato();
    CopyUnmatched(Close, "", ws);
    assert Close + "" == Close;
    assert Scan("", ws) == [];
  }

  /** `Potato` followed by the closing marker: the word is wrapped, the marker kept. */
  lemma PotatoThenClose()
    ensures Render(Scan("Potato" + Close, ["potato"])) == Open + "Potato" + Close + Close
  {
    PotatoWrapped(Close);
    CloseCopied();
  }

  /**
   * Highlighting is not idempotent: with the keyword `potato` the markers
   * hold no match, but the text they wrap still does, so a second pass over
   * the output of `HighlightPotato` wraps it again. (Keywords such as
   * `orange` or `a` would match inside the markers as well.)
   */
  lemma HighlightTwiceRewraps()
    ensures HighlightText(Open + "Potato" + Close, ["potato"]) == Open + (Open + "Potato" + Close) + Close
  {
    var ws := ["potato"];
    var tail := "Potato" + Close;
    var once := Open + "Potato" + Close;
    MarkersBeginNoPotato();
    CopyUnmatched(Open, tail, ws);
    PotatoThenClose();
    Assoc(Open, "Potato", Close);
    Assoc(Open, once, Close);
  }

  /**
   * Regrouping a concatenation of three strings. Kept as a lemma of its own:
   * proved inside `HighlightTwiceRewraps`, the step exhausts the solver there.
   */
  lemma Assoc(a: string, b: string, c: string)
    ensures a + b + c == a + (b + c)
  {
  }
}
