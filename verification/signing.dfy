/** The signer's exact-format steps around the DKIM library: assembling the
    message handed to the signer, and cutting the header value out of the
    `DKIM-Signature:` line the signer returns. */
module Signing {
  import opened PyStr
  import opened Utf8
  import opened Wrappers

  /* ---------------------------------------------------------------------
     The signable message
     --------------------------------------------------------------------- */

  /** The bytes of `From: `. */
  lemma EncodeFromLabel()
    ensures Encode("From: ") == [0x46, 0x72, 0x6F, 0x6D, 0x3A, 0x20]
  {
    EncodeAscii("From: ");
  }

  /** The bytes of the blank line ending the header section. */
  lemma EncodeBlankLine()
    ensures Encode("\n\n") == [0x0A, 0x0A]
  {
    EncodeAscii("\n\n");
  }

  /** `f"From: {address}\n\n".encode()` is the label, the encoded address
      and two line feeds, one after the other. */
  lemma HeaderSectionBytes(address: string)
    ensures Encode("From: " + address + "\n\n")
      == [0x46, 0x72, 0x6F, 0x6D, 0x3A, 0x20] + Encode(address) + [0x0A, 0x0A]
  {
    EncodeAppend("From: " + address, "\n\n");
    EncodeAppend("From: ", address);
    EncodeFromLabel();
    EncodeBlankLine();
  }

  /** `f"From: {address}\n\n".encode() + content`: the bytes of `From: `, the
      encoded address, two line feeds, then the file content unchanged. */
  function SignableMessage(address: string, content: bytes): (m: bytes)
    ensures var n := |Encode(address)|;
      && |m| == n + 8 + |content|
      && m[..6] == [0x46, 0x72, 0x6F, 0x6D, 0x3A, 0x20]
      && m[6..6 + n] == Encode(address)
      && m[6 + n..8 + n] == [0x0A, 0x0A]
      && m[8 + n..] == content
  {
    var fromLabel: bytes := [0x46, 0x72, 0x6F, 0x6D, 0x3A, 0x20];
    var e := Encode(address);
    var lf: bytes := [0x0A, 0x0A];
    HeaderSectionBytes(address);
    var m := Encode("From: " + address + "\n\n") + content;
    ConcatParts(fromLabel, e, lf, content);
    m
  }

  /** Each part of a four-part concatenation sits at its offset. */
  lemma ConcatParts(a: bytes, b: bytes, c: bytes, d: bytes)
    ensures var m := a + b + c + d;
      && m[..|a|] == a
      && m[|a|..|a| + |b|] == b
      && m[|a| + |b|..|a| + |b| + |c|] == c
      && m[|a| + |b| + |c|..] == d
  {
    var m := a + b + c + d;
    assert m[..|a|] == a;
    assert m[|a|..|a| + |b|] == b;
    assert m[|a| + |b|..|a| + |b| + |c|] == c;
    assert m[|a| + |b| + |c|..] == d;
  }

  /** For an ASCII address the header part is exactly `|address| + 8` bytes,
      and the content is what follows it. */
  lemma AsciiMessageLayout(address: string, content: bytes)
    requires IsAscii(address)
    ensures |SignableMessage(address, content)| == |address| + 8 + |content|
    ensures SignableMessage(address, content)[|address| + 8..] == content
  {
    EncodeAscii(address);
  }

  /** Under one address, the message determines the content. */
  lemma MessageDeterminesContent(address: string, c1: bytes, c2: bytes)
    requires SignableMessage(address, c1) == SignableMessage(address, c2)
    ensures c1 == c2
  {
    var n := |Encode(address)|;
    assert c1 == SignableMessage(address, c1)[8 + n..];
  }

  /* ---------------------------------------------------------------------
     The DKIM-Signature header value
     --------------------------------------------------------------------- */

  /** `s.replace("\r\n", "")`: one left-to-right pass removing CRLF pairs.
      It only deletes: the result is no longer than `s` and every character
      of it comes from `s`. */
  function RemoveCrlf(s: string): (r: string)
    ensures |r| <= |s|
    ensures forall c :: c in r ==> c in s
  {
    ReplaceChars(s, "\r\n", "");
    Replace(s, "\r\n", "")
  }

  /** `line.split(":")[1].strip().replace("\r\n", "")`. It fails (Python
      raises `IndexError`) exactly when the line has no colon; otherwise the
      value holds no colon and neither starts nor ends with whitespace. */
  function SigValue(line: string): (v: Option<string>)
    ensures v.None? <==> ':' !in line
    ensures v.Some? ==> ':' !in v.value
    ensures v.Some? && |v.value| > 0 ==> !IsSpace(v.value[0]) && !IsSpace(v.value[|v.value| - 1])
  {
    var parts := Split(line, ':');
    if |parts| < 2 then
      None
    else
      var t := Strip(parts[1]);
      var v := RemoveCrlf(t);
      ReplaceChars(t, "\r\n", "");
      assert ':' !in v;
      CrlfEnds(t);
      Some(v)
  }

  /** Removing CRLF pairs keeps a first character that is not a CR and a last
      character that is not an LF, so it cannot expose whitespace at either
      end of a stripped string. */
  lemma CrlfEnds(t: string)
    requires |t| > 0 ==> !IsSpace(t[0]) && !IsSpace(t[|t| - 1])
    ensures var v := RemoveCrlf(t); |v| > 0 ==> !IsSpace(v[0]) && !IsSpace(v[|v| - 1])
  {
    if |t| > 0 {
      assert !("\r\n" <= t);
      ReplaceStep(t, "\r\n", "");
      assert RemoveCrlf(t)[0] == t[0];
      var init := t[..|t| - 1];
      CrlfConcat(init, [t[|t| - 1]]);
      assert init + [t[|t| - 1]] == t;
      NoCrUnchanged([t[|t| - 1]]);
    }
  }

  /** The pass can be split wherever the cut does not fall inside a CRLF
      pair. */
  lemma {:induction false} CrlfConcat(x: string, y: string)
    requires !(|x| > 0 && x[|x| - 1] == '\r' && |y| > 0 && y[0] == '\n')
    ensures RemoveCrlf(x + y) == RemoveCrlf(x) + RemoveCrlf(y)
    decreases |x|
  {
    if |x| == 0 {
      assert x + y == y;
      ReplaceEmpty("\r\n", "");
    } else if "\r\n" <= x {
      CrlfConcat(x[2..], y);
      CrlfPairFirst(x, y);
    } else {
      CrlfConcat(x[1..], y);
      CrlfCharFirst(x, y);
    }
  }

  /** The step of `CrlfConcat` when `x` starts with CRLF. */
  lemma CrlfPairFirst(x: string, y: string)
    requires "\r\n" <= x
    requires RemoveCrlf(x[2..] + y) == RemoveCrlf(x[2..]) + RemoveCrlf(y)
    ensures RemoveCrlf(x + y) == RemoveCrlf(x) + RemoveCrlf(y)
  {
    assert (x + y)[..2] == x[..2];
    ReplaceAt(x + y, "\r\n", "");
    ReplaceAt(x, "\r\n", "");
    assert (x + y)[2..] == x[2..] + y;
  }

  /** The step of `CrlfConcat` when `x` does not start with CRLF. */
  lemma CrlfCharFirst(x: string, y: string)
    requires |x| > 0 && !("\r\n" <= x)
    requires !(|x| > 0 && x[|x| - 1] == '\r' && |y| > 0 && y[0] == '\n')
    requires RemoveCrlf(x[1..] + y) == RemoveCrlf(x[1..]) + RemoveCrlf(y)
    ensures RemoveCrlf(x + y) == RemoveCrlf(x) + RemoveCrlf(y)
  {
    assert !("\r\n" <= x + y) by {
      assert (x + y)[0] == x[0];
      assert |x| >= 2 ==> (x + y)[1] == x[1];
      assert |x| == 1 && |y| > 0 ==> (x + y)[1] == y[0];
    }
    ReplaceStep(x + y, "\r\n", "");
    ReplaceStep(x, "\r\n", "");
    assert (x + y)[1..] == x[1..] + y;
    assert (x + y)[0] == x[0];
  }

  /** Without a carriage return there is nothing to remove: lone line feeds
      survive. */
  lemma {:induction false} NoCrUnchanged(s: string)
    requires '\r' !in s
    ensures RemoveCrlf(s) == s
    decreases |s|
  {
    if |s| > 0 {
      assert s[0] != '\r';
      ReplaceStep(s, "\r\n", "");
      NoCrUnchanged(s[1..]);
    } else {
      ReplaceEmpty("\r\n", "");
    }
  }

  /** Exactly the CRLF pairs a folder inserts between lines are removed:
      lines free of carriage returns, joined with CRLF, come back
      concatenated. */
  lemma {:induction false} UnfoldLines(lines: seq<string>)
    requires forall i :: 0 <= i < |lines| ==> '\r' !in lines[i]
    ensures RemoveCrlf(Join(lines, "\r\n")) == Join(lines, "")
    decreases |lines|
  {
    if |lines| == 1 {
      NoCrUnchanged(lines[0]);
    } else if |lines| > 1 {
      var x, rest := lines[0], Join(lines[1..], "\r\n");
      assert Join(lines, "\r\n") == x + ("\r\n" + rest);
      CrlfConcat(x, "\r\n" + rest);
      assert ("\r\n" + rest)[..2] == "\r\n";
      ReplaceAt("\r\n" + rest, "\r\n", "");
      assert ("\r\n" + rest)[2..] == rest;
      NoCrUnchanged(x);
      UnfoldLines(lines[1..]);
    }
  }

  /** A single pass is not a fixed point: removing the inner pair of
      `\r\r\n\n` brings a new CRLF together. */
  lemma CrlfSurvives()
    ensures RemoveCrlf("\r\r\n\n") == "\r\n"
  {
    var s := "\r\r\n\n";
    assert s[1] == '\r' && "\r\n"[1] == '\n';
    assert !("\r\n" <= s);
    ReplaceStep(s, "\r\n", "");
    assert s[1..] == "\r\n\n";
    assert "\r\n" <= s[1..];
    ReplaceAt(s[1..], "\r\n", "");
    assert s[1..][2..] == "\n";
    NoCrUnchanged("\n");
  }

  /** A carriage return not followed by a line feed survives the pass,
      wherever it stands. */
  lemma LoneCrSurvives(x: string, y: string)
    requires '\r' !in x && '\r' !in y
    requires !(|y| > 0 && y[0] == '\n')
    ensures RemoveCrlf(x + "\r" + y) == x + "\r" + y
  {
    var t := "\r" + y;
    assert x + "\r" + y == x + t;
    CrlfConcat(x, t);
    assert !("\r\n" <= t) by {
      assert |t| >= 2 ==> t[1] == y[0];
    }
    ReplaceStep(t, "\r\n", "");
    assert t[1..] == y;
    NoCrUnchanged(x);
    NoCrUnchanged(y);
  }

  /** The value is the text between the first and the second colon (or the
      end of the line), stripped and with its CRLF pairs removed. */
  lemma SigValueBetweenColons(name: string, field: string, rest: string)
    requires ':' !in name && ':' !in field
    ensures SigValue(name + ":" + field) == Some(RemoveCrlf(Strip(field)))
    ensures SigValue(name + ":" + field + ":" + rest) == Some(RemoveCrlf(Strip(field)))
  {
    SplitCons(name, ':', field);
    assert Split(field, ':') == [field];
    assert name + ":" + field + ":" + rest == name + [':'] + (field + [':'] + rest);
    SplitCons(name, ':', field + [':'] + rest);
    SplitCons(field, ':', rest);
  }

  /** Everything after a second colon is lost: a colon inside the value
      (in a selector `a:b`, say) cuts the value short. */
  lemma SigValueIgnoresAfterSecondColon(name: string, field: string, rest1: string, rest2: string)
    requires ':' !in name && ':' !in field
    ensures SigValue(name + ":" + field + ":" + rest1) == SigValue(name + ":" + field + ":" + rest2)
  {
    SigValueBetweenColons(name, field, rest1);
    SigValueBetweenColons(name, field, rest2);
  }

  /** Joined with CRLF, lines free of colons give a text free of colons,
      starting with the first line's first character and ending with the
      last line's last character. */
  lemma FoldedText(lines: seq<string>)
    requires |lines| > 0
    requires forall i :: 0 <= i < |lines| ==> ':' !in lines[i]
    requires |lines[0]| > 0
    requires |lines[|lines| - 1]| > 0
    ensures var j, last := Join(lines, "\r\n"), lines[|lines| - 1];
      && ':' !in j
      && |j| > 0 && j[0] == lines[0][0] && j[|j| - 1] == last[|last| - 1]
  {
    var j := Join(lines, "\r\n");
    var last := lines[|lines| - 1];
    JoinAvoids(lines, "\r\n", ':');
    JoinStarts(lines, "\r\n");
    JoinEnds(lines, "\r\n");
    assert j[0] == lines[0][0];
    assert j[|j| - |last|..][|last| - 1] == last[|last| - 1];
  }

  /** The field after the colon of a folded signer line: a space, the folded
      text, CRLF. It holds no colon, strips to the folded text, and loses
      its folds. */
  lemma FoldedField(lines: seq<string>)
    requires |lines| > 0
    requires forall i :: 0 <= i < |lines| ==> ':' !in lines[i] && '\r' !in lines[i]
    requires |lines[0]| > 0 && !IsSpace(lines[0][0])
    requires var last := lines[|lines| - 1]; |last| > 0 && !IsSpace(last[|last| - 1])
    ensures var j := Join(lines, "\r\n");
      && ':' !in " " + j + "\r\n"
      && Strip(" " + j + "\r\n") == j
      && RemoveCrlf(j) == Join(lines, "")
  {
    var j := Join(lines, "\r\n");
    FoldedText(lines);
    NotInWrapped(':', j);
    StripFolded(j, lines[0][0], lines[|lines| - 1][|lines[|lines| - 1]| - 1]);
    UnfoldLines(lines);
  }

  /** The space after the colon and the final CRLF are stripped. */
  lemma StripFolded(j: string, first: char, final: char)
    requires |j| > 0 && j[0] == first && j[|j| - 1] == final
    requires !IsSpace(first) && !IsSpace(final)
    ensures Strip(" " + j + "\r\n") == j
  {
    assert AllSpace(" ") && AllSpace("\r\n");
    StripUnique(" ", j, "\r\n");
  }

  /** The intended case: a line `name: ` followed by tag-value text folded
      into lines with CRLF, and ended by CRLF, as the signer returns it,
      yields the unfolded text, provided the text holds no colon. */
  lemma SigValueOfFoldedLine(name: string, lines: seq<string>)
    requires ':' !in name
    requires |lines| > 0
    requires forall i :: 0 <= i < |lines| ==> ':' !in lines[i] && '\r' !in lines[i]
    requires |lines[0]| > 0 && !IsSpace(lines[0][0])
    requires var last := lines[|lines| - 1]; |last| > 0 && !IsSpace(last[|last| - 1])
    ensures SigValue(name + ": " + Join(lines, "\r\n") + "\r\n") == Some(Join(lines, ""))
  {
    var j := Join(lines, "\r\n");
    var field := " " + j + "\r\n";
    assert name + ": " + j + "\r\n" == name + ":" + field by {
      assert name + ": " == name + ":" + " ";
    }
    FoldedField(lines);
    SigValueBetweenColons(name, field, "");
  }

  /** A character other than space, CR and LF that is missing from `j` is
      missing from the field wrapped around it. */
  lemma NotInWrapped(c: char, j: string)
    requires c !in j && c != ' ' && c != '\r' && c != '\n'
    ensures c !in " " + j + "\r\n"
  {
    var w := " " + j + "\r\n";
    forall k | 0 <= k < |w| ensures w[k] != c {
      if k == 0 {
        assert w[k] == ' ';
      } else if k <= |j| {
        assert w[k] == j[k - 1];
      } else {
        assert w[k] == '\r' || w[k] == '\n';
      }
    }
  }
}
