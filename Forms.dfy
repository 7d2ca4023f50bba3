/** The raw-body parsing of the quiz submission (source/QuizAttempt.cpp):
    `urlDecode`, the split of the body at '&' that `std::getline` performs,
    and `parseQuizAnswers`, which maps question indices to chosen options. */
module Forms {
  import opened Wrappers
  import opened Text

  predicate IsHex(c: char) {
    '0' <= c <= '9' || 'a' <= c <= 'f' || 'A' <= c <= 'F'
  }

  function HexValue(c: char): (v: nat)
    requires IsHex(c)
    ensures v < 16
  {
    if '0' <= c <= '9' then c as int - '0' as int
    else if 'a' <= c <= 'f' then c as int - 'a' as int + 10
    else c as int - 'A' as int + 10
  }

  function HexDigit(v: nat): (c: char)
    requires v < 16
    ensures IsHex(c) && HexValue(c) == v
  {
    if v < 10 then ('0' as int + v) as char else ('A' as int + v - 10) as char
  }

  /** The text `str.substr(i + 1, 2)` hands to `sscanf` for the '%' at the
      head of s: the at most two characters after it. */
  function Window(s: string): (w: string)
    requires 1 <= |s|
    ensures |w| <= 2 && 1 + |w| <= |s| && w == s[1..1 + |w|]
  {
    s[1..if 3 <= |s| then 3 else |s|]
  }

  /** What `sscanf(w, "%x", &ii)` stores in `ii` for a window of at most two
      characters. Like `strtoul` in base 16 it skips leading white space and
      reads an optional sign before the hex digits, and a '-' negates the
      value. None when no hex digit is read: a matching failure, which leaves
      `ii` unassigned. */
  function ScanHex(w: string): (v: Option<int>)
    requires |w| <= 2
    ensures v.Some? <==>
      ((0 < |w| && IsHex(w[0])) || (|w| == 2 && IsHex(w[1]) && (IsSpace(w[0]) || w[0] == '+' || w[0] == '-')))
    ensures v.Some? ==> -16 < v.value < 256
  {
    if 0 < |w| && IsHex(w[0]) then
      Some(if |w| == 2 && IsHex(w[1]) then 16 * HexValue(w[0]) + HexValue(w[1]) else HexValue(w[0]))
    else if |w| == 2 && IsHex(w[1]) && (IsSpace(w[0]) || w[0] == '+') then Some(HexValue(w[1]))
    else if |w| == 2 && IsHex(w[1]) && w[0] == '-' then Some(0 - HexValue(w[1]) as int)
    else None
  }

  /** `static_cast<char>(ii)`: the low eight bits of the int, as a byte. */
  function ByteOf(v: int): (c: char)
    ensures c as int < 256 && (0 <= v < 256 ==> c as int == v)
  {
    (v % 256) as char
  }

  function Prepend(c: char, r: Option<string>): Option<string> {
    if r.Some? then Some([c] + r.value) else None
  }

  /** `urlDecode`: '+' is a space, '%' and the next two characters are the
      byte `sscanf` reads from them, anything else is copied. A '%' whose
      window holds no hex number is None: there `sscanf` assigns nothing and
      the source appends whatever `ii` held before. */
  function Decode(s: string): Option<string>
    decreases |s|
  {
    if |s| == 0 then Some("")
    else if s[0] == '%' then
      var v := ScanHex(Window(s));
      if v.Some? then Prepend(ByteOf(v.value), Decode(s[if 3 <= |s| then 3 else |s|..]))
      else None
    else Prepend(if s[0] == '+' then ' ' else s[0], Decode(s[1..]))
  }

  /** A decoded prefix followed by the decoding of the rest. */
  function Then(p: string, r: Option<string>): Option<string> {
    if r.Some? then Some(p + r.value) else None
  }

  lemma ThenPrepend(p: string, c: char, r: Option<string>)
    ensures Then(p, Prepend(c, r)) == Then(p + [c], r)
  {
    if r.Some? {
      assert p + ([c] + r.value) == p + [c] + r.value;
    }
  }

  /** `urlDecode` as the source writes it: one pass over the characters,
      jumping over the two hex digits after a '%'. */
  method UrlDecode(s: string) returns (r: Option<string>)
    ensures r == Decode(s)
  {
    var decoded := "";
    var i := 0;
    assert s[0..] == s;
    if Decode(s).Some? {
      assert decoded + Decode(s).value == Decode(s).value;
    }
    while i < |s|
      invariant 0 <= i <= |s|
      invariant Then(decoded, Decode(s[i..])) == Decode(s)
    {
      var t := s[i..];
      var c: char;
      var next: int;
      if s[i] == '%' {
        var v := ScanHex(Window(t));
        if v.Some? {
          c := ByteOf(v.value);
          next := if i + 3 <= |s| then i + 3 else |s|;
          assert t[if 3 <= |t| then 3 else |t|..] == s[next..];
        } else {
          assert Decode(t) == None;
          return None;
        }
      } else {
        c := if s[i] == '+' then ' ' else s[i];
        next := i + 1;
        assert t[1..] == s[next..];
      }
      assert Decode(t) == Prepend(c, Decode(s[next..]));
      ThenPrepend(decoded, c, Decode(s[next..]));
      decoded := decoded + [c];
      i := next;
    }
    assert s[i..] == "" && decoded + "" == decoded;
    r := Some(decoded);
  }

  /** The characters a browser sends as they are. */
  predicate IsUnreserved(c: char) {
    'a' <= c <= 'z' || 'A' <= c <= 'Z' || '0' <= c <= '9' || c == '-' || c == '.' || c == '_' || c == '~'
  }

  /** Form encoding of one byte: kept, '+' for a space, else '%' and two hex digits. */
  function EncodeChar(c: char): string
    requires c as int < 256
  {
    if IsUnreserved(c) then [c]
    else if c == ' ' then "+"
    else ['%', HexDigit(c as int / 16), HexDigit(c as int % 16)]
  }

  /** Form encoding of a byte string, as a browser writes a field. */
  function Encode(s: string): string
    requires forall i :: 0 <= i < |s| ==> s[i] as int < 256
  {
    if |s| == 0 then "" else EncodeChar(s[0]) + Encode(s[1..])
  }

  /** Decoding undoes the encoding of every byte string. */
  lemma {:induction false} DecodeEncode(s: string)
    requires forall i :: 0 <= i < |s| ==> s[i] as int < 256
    ensures Decode(Encode(s)) == Some(s)
  {
    if |s| > 0 {
      var e := EncodeChar(s[0]);
      var rest := Encode(s[1..]);
      DecodeEncode(s[1..]);
      var x := e + rest;
      if |e| == 1 {
        assert x[1..] == rest;
      } else {
        assert x[0] == '%' && x[1] == e[1] && x[2] == e[2];
        assert x[3..] == rest;
      }
      assert s == [s[0]] + s[1..];
    }
  }

  /** A lone escape decodes to the byte its window reads. */
  lemma EscapeAlone(s: string, v: int)
    requires |s| == 3 && s[0] == '%' && ScanHex(Window(s)) == Some(v)
    ensures Decode(s) == Some([ByteOf(v)])
  {
    assert s[3..] == "" && Decode("") == Some("");
    assert Decode(s) == Prepend(ByteOf(v), Decode(s[3..]));
    assert [ByteOf(v)] + "" == [ByteOf(v)];
  }

  /** `sscanf` reads white space or a sign before the hex digit: "% 9" and
      "%+9" decode to a tab, and "%-f" to the byte 0xF1. */
  lemma SignedEscapes()
    ensures Decode("% 9") == Some("\t")
    ensures Decode("%+9") == Some("\t")
    ensures Decode("%-f") == Some([241 as char])
  {
    assert Window("% 9") == " 9" && Window("%+9") == "+9" && Window("%-f") == "-f";
    assert ScanHex(" 9") == Some(9) && ScanHex("+9") == Some(9) && ScanHex("-f") == Some(-15);
    EscapeAlone("% 9", 9);
    EscapeAlone("%+9", 9);
    EscapeAlone("%-f", -15);
    assert ByteOf(9) == '\t' && ByteOf(-15) == 241 as char;
  }

  /** Text without '%' and '+' decodes to itself. */
  lemma {:induction false} DecodePlain(s: string)
    requires forall i :: 0 <= i < |s| ==> s[i] != '%' && s[i] != '+'
    ensures Decode(s) == Some(s)
  {
    if |s| > 0 {
      DecodePlain(s[1..]);
      assert s == [s[0]] + s[1..];
    }
  }

  /** `std::string::find(c)`: the first position of c, or |s| (npos). */
  function FindChar(s: string, c: char): (k: nat)
    ensures k <= |s|
    ensures k < |s| ==> s[k] == c
    ensures forall i :: 0 <= i < k ==> s[i] != c
  {
    if |s| == 0 then 0
    else if s[0] == c then 0
    else 1 + FindChar(s[1..], c)
  }

  /** The pieces `std::getline(ss, pair, '&')` reads from the body: the text
      between separators, with no piece after a final '&' and none at all
      for the empty body. */
  function Split(s: string): seq<string>
    decreases |s|
  {
    if |s| == 0 then []
    else
      var k := FindChar(s, '&');
      if k == |s| then [s] else [s[..k]] + Split(s[k + 1..])
  }

  /** The pieces joined with '&' between them, as a browser sends a form. */
  function Join(ts: seq<string>): string {
    if |ts| == 0 then ""
    else if |ts| == 1 then ts[0]
    else ts[0] + "&" + Join(ts[1..])
  }

  /** Splitting a joined form gives its pieces back, when no piece holds a
      '&' and the last one is not empty. */
  lemma {:induction false} SplitJoin(ts: seq<string>)
    requires forall i, j :: 0 <= i < |ts| && 0 <= j < |ts[i]| ==> ts[i][j] != '&'
    requires |ts| > 0 ==> ts[|ts| - 1] != ""
    ensures Split(Join(ts)) == ts
  {
    if |ts| == 1 {
      assert FindChar(ts[0], '&') == |ts[0]|;
    } else if |ts| > 1 {
      var t := ts[0];
      var s := Join(ts);
      var rest := Join(ts[1..]);
      assert s == t + "&" + rest;
      assert s[|t|] == '&';
      assert forall i :: 0 <= i < |t| ==> s[i] != '&';
      assert FindChar(s, '&') == |t|;
      assert s[..|t|] == t;
      assert s[|t| + 1..] == rest;
      SplitJoin(ts[1..]);
      assert ts == [t] + ts[1..];
    }
  }

  /** The answer one piece of the body carries: `answer_<q>=<o>` with both
      numbers read by `std::stoi`. A piece without '=', with another key, or
      whose numbers do not parse (the caught exception) carries none; so
      does a piece that does not decode. */
  function PairOf(piece: string): Option<(int, int)> {
    var e := FindChar(piece, '=');
    if e == |piece| then None
    else
      var key := Decode(piece[..e]);
      var value := Decode(piece[e + 1..]);
      if key.Some? && value.Some? && 7 <= |key.value| && key.value[..7] == "answer_" then
        var q := Stoi(key.value[7..]);
        var o := Stoi(value.value);
        if q.Some? && o.Some? then Some((q.value, o.value)) else None
      else None
  }

  /** The map the answers of the pieces build, later pieces overwriting
      earlier ones, when `read` gives the answer of a piece. */
  function Collect(pieces: seq<string>, read: string -> Option<(int, int)>): map<int, int> {
    if |pieces| == 0 then map[]
    else
      var m := Collect(pieces[..|pieces| - 1], read);
      var p := read(pieces[|pieces| - 1]);
      if p.Some? then m[p.value.0 := p.value.1] else m
  }

  /** The answers of a body's pieces. */
  function AnswersOf(pieces: seq<string>): map<int, int> {
    Collect(pieces, PairOf)
  }

  /** `parseQuizAnswers`: the getline loop over the pieces of the body. */
  method ParseQuizAnswers(body: string) returns (answers: map<int, int>)
    ensures answers == AnswersOf(Split(body))
  {
    var pieces := Split(body);
    answers := map[];
    for i := 0 to |pieces|
      invariant answers == AnswersOf(pieces[..i])
    {
      assert pieces[..i + 1][..i] == pieces[..i];
      var piece := pieces[i];
      var e := FindChar(piece, '=');
      if e < |piece| {
        var key := UrlDecode(piece[..e]);
        var value := UrlDecode(piece[e + 1..]);
        if key.Some? && value.Some? && 7 <= |key.value| && key.value[..7] == "answer_" {
          var q := Stoi(key.value[7..]);
          var o := Stoi(value.value);
          if q.Some? && o.Some? {
            answers := answers[q.value := o.value];
          }
        }
      }
    }
    assert pieces[..|pieces|] == pieces;
  }

  /** A question has an answer exactly when some piece answers it. */
  lemma {:induction false} CollectKeys(pieces: seq<string>, read: string -> Option<(int, int)>, q: int)
    ensures q in Collect(pieces, read) <==>
      exists i :: 0 <= i < |pieces| && read(pieces[i]).Some? && read(pieces[i]).value.0 == q
  {
    if |pieces| > 0 {
      var p := pieces[..|pieces| - 1];
      CollectKeys(p, read, q);
      if q in Collect(p, read) {
        var i :| 0 <= i < |p| && read(p[i]).Some? && read(p[i]).value.0 == q;
        assert pieces[i] == p[i];
      }
      if exists i :: 0 <= i < |pieces| && read(pieces[i]).Some? && read(pieces[i]).value.0 == q {
        var i :| 0 <= i < |pieces| && read(pieces[i]).Some? && read(pieces[i]).value.0 == q;
        if i < |p| {
          assert p[i] == pieces[i];
        }
      }
    }
  }

  /** The last piece that answers question q decides its option. */
  lemma {:induction false} CollectLastWins(pieces: seq<string>, read: string -> Option<(int, int)>, i: int, q: int, o: int)
    requires 0 <= i < |pieces| && read(pieces[i]) == Some((q, o))
    requires forall j :: i < j < |pieces| ==> read(pieces[j]).None? || read(pieces[j]).value.0 != q
    ensures q in Collect(pieces, read) && Collect(pieces, read)[q] == o
  {
    var p := pieces[..|pieces| - 1];
    if i < |p| {
      forall j | i < j < |p|
        ensures read(p[j]).None? || read(p[j]).value.0 != q
      {
        assert p[j] == pieces[j];
      }
      CollectLastWins(p, read, i, q, o);
    }
  }

  /** `parseQuizAnswers` gives question q an answer exactly when some piece
      of the body answers it. */
  lemma AnswersKeys(body: string, q: int)
    ensures q in AnswersOf(Split(body)) <==>
      exists i :: 0 <= i < |Split(body)| && PairOf(Split(body)[i]).Some? && PairOf(Split(body)[i]).value.0 == q
  {
    CollectKeys(Split(body), PairOf, q);
  }

  /** The last piece of the body that answers question q decides its option. */
  lemma AnswersLastWins(body: string, i: int, q: int, o: int)
    requires 0 <= i < |Split(body)| && PairOf(Split(body)[i]) == Some((q, o))
    requires forall j :: i < j < |Split(body)| ==> PairOf(Split(body)[j]).None? || PairOf(Split(body)[j]).value.0 != q
    ensures q in AnswersOf(Split(body)) && AnswersOf(Split(body))[q] == o
  {
    CollectLastWins(Split(body), PairOf, i, q, o);
  }

  /** A field whose key has no '=' splits at the '=' that follows the key. */
  lemma SplitAtEquals(key: string, value: string)
    requires forall i :: 0 <= i < |key| ==> key[i] != '='
    ensures var piece := key + "=" + value;
      FindChar(piece, '=') == |key| && piece[..|key|] == key && piece[|key| + 1..] == value
  {
    var piece := key + "=" + value;
    assert piece[|key|] == '=';
    assert forall i :: 0 <= i < |key| ==> piece[i] == key[i];
  }

  /** A piece `key=value` whose key has no '=' answers question q with
      option o when the key decodes to "answer_" and the text of q, and the
      value decodes to the text of o, both as `std::stoi` reads them. */
  lemma AnswerPiece(key: string, value: string, kd: string, vd: string, q: int, o: int)
    requires forall i :: 0 <= i < |key| ==> key[i] != '='
    requires Decode(key) == Some(kd) && Decode(value) == Some(vd)
    requires 7 <= |kd| && kd[..7] == "answer_" && Stoi(kd[7..]) == Some(q) && Stoi(vd) == Some(o)
    ensures PairOf(key + "=" + value) == Some((q, o))
  {
    SplitAtEquals(key, value);
  }

  /** The key `answer_<q>` has no '=' and decodes to itself. */
  lemma AnswerKey(q: int)
    ensures var key := "answer_" + IntToString(q);
      (forall i :: 0 <= i < |key| ==> key[i] != '=') && Decode(key) == Some(key) &&
      key[..7] == "answer_" && key[7..] == IntToString(q)
  {
    var key := "answer_" + IntToString(q);
    NoSpecials(q);
    DecodePlain(key);
  }

  /** The field a browser sends for option o of question q parses back as
      that answer. */
  lemma AnswerField(q: int, o: int)
    requires IntMin <= q <= IntMax && IntMin <= o <= IntMax
    ensures PairOf("answer_" + IntToString(q) + "=" + IntToString(o)) == Some((q, o))
  {
    var key := "answer_" + IntToString(q);
    var value := IntToString(o);
    AnswerKey(q);
    NoSpecials(o);
    DecodePlain(value);
    ParseIntToString(q, IntMin, IntMax);
    ParseIntToString(o, IntMin, IntMax);
    AnswerPiece(key, value, key, value, q, o);
  }

  /** The value `% 91` decodes to a tab followed by "1". */
  lemma SpacedValue()
    ensures Decode("% 91") == Some("\t1")
  {
    assert Window("% 91") == " 9" && ScanHex(" 9") == Some(9) && ByteOf(9) == '\t';
    assert "% 91"[3..] == "1";
    DecodePlain("1");
    assert "% 91"[0] == '%' && ['\t'] + "1" == "\t1";
    assert Decode("% 91") == Prepend('\t', Some("1"));
  }

  /** `std::stoi` skips the leading tab. */
  lemma StoiAfterTab()
    ensures Stoi("\t1") == Some(1)
  {
    assert SpaceRun("\t1") == 1;
    assert "\t1"[1..] == "1";
    assert DigitRun("1") == 1 && "1"[..1] == "1";
  }

  /** An escaped white space before the option still counts: in the piece
      `answer_<q>=% 91` the value decodes to a tab and "1", and `std::stoi`
      skips the tab, so the piece answers question q with option 1. */
  lemma SpacedAnswer(q: int)
    requires IntMin <= q <= IntMax
    ensures PairOf("answer_" + IntToString(q) + "=" + "% 91") == Some((q, 1))
  {
    var key := "answer_" + IntToString(q);
    AnswerKey(q);
    ParseIntToString(q, IntMin, IntMax);
    SpacedValue();
    StoiAfterTab();
    AnswerPiece(key, "% 91", key, "\t1", q, 1);
  }

  /** A decimal form holds only digits and a leading '-'. */
  lemma NoSpecials(i: int)
    ensures forall k :: 0 <= k < |IntToString(i)| ==>
      IntToString(i)[k] == '-' || IsDigit(IntToString(i)[k])
  {
    if i < 0 {
      var s := IntToString(i);
      assert s == "-" + NatToString(-i);
      forall k | 0 <= k < |s|
        ensures s[k] == '-' || IsDigit(s[k])
      {
        if k > 0 {
          assert s[k] == NatToString(-i)[k - 1];
        }
      }
    }
  }
}
