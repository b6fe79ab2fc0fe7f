/**
 The form-data body that `AlfrescoMultipartClient.upload_multipart` of nv_http_harness.py prints.
 */
module MultipartPrinter {
  import opened Wrappers
  import opened ByteStrings
  import opened MultipartParser

  const DISPOSITION := "Content-Disposition"
  const FORM_DATA := "form-data"
  const TYPE_KEY := "Content-Type"
  const TYPE_VALUE := "application/octet-stream"
  const TYPE_LINE := TYPE_KEY + ":" + (" " + TYPE_VALUE)

  function ItemText(key: string, name: string): string {
    key + "=" + ("\"" + name + "\"")
  }

  function ItemsText(items: seq<string>): string {
    if items == [] then "" else "; " + items[0] + ItemsText(items[1..])
  }

  function DispositionLine(items: seq<string>): string {
    DISPOSITION + ":" + (" " + (FORM_DATA + ItemsText(items)))
  }

  /** The header block of a text field. */
  function FieldHeader(name: string): string {
    DispositionLine([ItemText("name", name)])
  }

  /** The header block of the file. */
  function FileHeader(filename: string): string {
    DispositionLine([ItemText("name", "filedata"), ItemText("filename", filename)]) + CRLF + TYPE_LINE
  }

  /** What stands between two delimiters, with line break `lb`. */
  function PrintPart(lb: string, header: string, content: string): string {
    lb + (header + (lb + lb) + (content + lb))
  }

  /** Names that survive printing and parsing. */
  predicate LegalName(name: string) {
    && name != "" && IsAscii(name) && ';' !in name && '\n' !in name
    && name[0] != '"' && name[|name| - 1] != '"'
  }

  lemma DispositionKey(key: string)
    requires key == DISPOSITION
    ensures Lower(Strip(key)) == "content-disposition"
  {
    hide Trim, TrimLeft, TrimRight, Lower;
    TrimKeeps(key, IsSpace);
    LowerIs(key, "content-disposition");
  }

  lemma Quoted(name: string)
    requires name != "" && name[0] != '"' && name[|name| - 1] != '"'
    ensures StripQuotes(Strip("\"" + name + "\"")) == name
  {
    hide Trim;
    var q := "\"" + name + "\"";
    assert q[0] == '"' && q[|q| - 1] == '"' && q[1] == name[0] && q[|name|] == name[|name| - 1];
    TrimKeeps(q, IsSpace);
    TrimIs(q, (c: char) => c == '"', 1, 1 + |name|);
    assert q[1..1 + |name|] == name;
  }

  /** A parameter key that reads as itself. */
  predicate PlainKey(key: string) {
    && key != "" && '=' !in key && !IsSpace(key[0]) && !IsSpace(key[|key| - 1])
    && forall i | 0 <= i < |key| :: LowerChar(key[i]) == key[i]
  }

  /** The item `key="name"` reads as `key` and `name`. */
  lemma Item(key: string, name: string)
    requires PlainKey(key)
    requires name != "" && name[0] != '"' && name[|name| - 1] != '"'
    ensures ReadItem(ItemText(key, name)) == Some((key, name))
  {
    var value := "\"" + name + "\"";
    var item := key + "=" + value;
    assert Cut(item, "=") == Some((key, value)) by {
      CutChar(key, '=', value);
    }
    Quoted(name);
    assert Lower(Strip(key)) == key by {
      TrimKeeps(key, IsSpace);
      LowerIs(key, key);
    }
  }

  predicate PlainItem(item: string) {
    item != "" && ';' !in item && IsAscii(item) && !IsSpace(item[0]) && !IsSpace(item[|item| - 1])
  }

  lemma SpaceBefore(s: string)
    requires s != "" && !IsSpace(s[0]) && !IsSpace(s[|s| - 1])
    ensures Strip(" " + s) == s
  {
    var t := " " + s;
    assert t[1..] == s;
    assert TrimLeft(t, IsSpace) == TrimLeft(s, IsSpace);
  }

  lemma StripAllCons(item: string, items: seq<string>)
    ensures StripAll([item] + items) == [Strip(item)] + StripAll(items)
  {
  }

  /** Splitting a printed list of items gives the items back. */
  lemma {:induction false} SplitItems(first: string, items: seq<string>)
    requires ';' !in first
    requires forall i | 0 <= i < |items| :: PlainItem(items[i])
    ensures StripAll(Split(first + ItemsText(items), ";")) == [Strip(first)] + items
    decreases |items|
  {
    if items == [] {
      assert first + "" == first;
      ContainsChar(first, ';');
      SplitNone(first, ";");
    } else {
      var next := " " + items[0];
      var rest := items[1..];
      var tail := next + ItemsText(rest);
      assert Split(first + ItemsText(items), ";") == [first] + Split(tail, ";") by {
        assert first + ItemsText(items) == first + [';'] + tail;
        SplitChar(first, ';', tail);
      }
      StripAllCons(first, Split(tail, ";"));
      assert StripAll(Split(tail, ";")) == items by {
        SplitItems(next, rest);
        SpaceBefore(items[0]);
        assert [items[0]] + rest == items;
      }
    }
  }

  lemma {:induction false} ItemsAscii(items: seq<string>)
    requires forall i | 0 <= i < |items| :: PlainItem(items[i])
    ensures IsAscii(ItemsText(items))
    ensures items != [] ==> ItemsText(items) != "" && !IsSpace(ItemsText(items)[|ItemsText(items)| - 1])
    decreases |items|
  {
    if items != [] {
      ItemsAscii(items[1..]);
    }
  }

  lemma LineRead(key: string, value: string)
    requires ':' !in key && IsAscii(key) && IsAscii(value)
    requires value != "" && !IsSpace(value[0]) && !IsSpace(value[|value| - 1])
    ensures ReadLine(key + ":" + (" " + value)) == Some((Lower(Strip(key)), value))
  {
    var text := " " + value;
    var line := key + ":" + text;
    assert Cut(line, ":") == Some((key, text)) by {
      CutChar(key, ':', text);
    }
    assert IsAscii(text);
    assert Strip(text) == value by {
      SpaceBefore(value);
    }
  }

  lemma ItemsEdges(first: string, items: seq<string>)
    requires IsAscii(first) && first != "" && !IsSpace(first[0]) && !IsSpace(first[|first| - 1])
    requires forall i | 0 <= i < |items| :: PlainItem(items[i])
    ensures var value := first + ItemsText(items);
      IsAscii(value) && value != "" && !IsSpace(value[0]) && !IsSpace(value[|value| - 1])
  {
    ItemsAscii(items);
    var value := first + ItemsText(items);
    assert value[0] == first[0];
    if items == [] {
      assert value == first;
    } else {
      assert value[|value| - 1] == ItemsText(items)[|ItemsText(items)| - 1];
    }
  }

  lemma DispositionChars()
    ensures ':' !in DISPOSITION && IsAscii(DISPOSITION)
  {
  }

  lemma DispositionValueRead(key: string, value: string)
    requires key == DISPOSITION
    requires IsAscii(value) && value != "" && !IsSpace(value[0]) && !IsSpace(value[|value| - 1])
    ensures ReadLine(key + ":" + (" " + value)) == Some(("content-disposition", value))
  {
    hide Strip, Lower, ReadLine;
    DispositionChars();
    DispositionKey(key);
    LineRead(key, value);
  }

  /** A printed Content-Disposition line is read as such. */
  lemma DispositionRead(items: seq<string>)
    requires forall i | 0 <= i < |items| :: PlainItem(items[i])
    ensures ReadLine(DispositionLine(items)) == Some(("content-disposition", FORM_DATA + ItemsText(items)))
  {
    var value := FORM_DATA + ItemsText(items);
    FormDataPlain();
    ItemsEdges(FORM_DATA, items);
    DispositionValueRead(DISPOSITION, value);
  }

  /** A word that trimming and lowering leave alone. */
  predicate PlainWord(w: string) {
    && w != "" && ';' !in w && !IsSpace(w[0]) && !IsSpace(w[|w| - 1])
    && forall i | 0 <= i < |w| :: LowerChar(w[i]) == w[i]
  }

  lemma PlainWordKept(w: string)
    requires PlainWord(w)
    ensures Strip(w) == w && Lower(w) == w
  {
    TrimKeeps(w, IsSpace);
    LowerIs(w, w);
  }

  lemma FormDataPlain()
    ensures PlainWord(FORM_DATA) && IsAscii(FORM_DATA)
  {
  }

  lemma ItemsRead(items: seq<string>)
    requires forall i | 0 <= i < |items| :: PlainItem(items[i])
    ensures ReadDispositionValue(FORM_DATA + ItemsText(items)) == NamesOf(items)
  {
    hide NamesOf, Strip, Lower, Split;
    FormDataPlain();
    PlainWordKept(FORM_DATA);
    SplitItems(FORM_DATA, items);
    assert ([FORM_DATA] + items)[1..] == items;
  }

  lemma ItemPlain(key: string, name: string)
    requires PlainKey(key) && IsAscii(key) && ';' !in key && IsAscii(name) && ';' !in name
    ensures PlainItem(ItemText(key, name))
  {
  }

  lemma {:induction false} ItemsLack(items: seq<string>, c: char)
    requires c != ';' && c != ' ' && forall i | 0 <= i < |items| :: c !in items[i]
    ensures c !in ItemsText(items)
    decreases |items|
  {
    if items != [] {
      ItemsLack(items[1..], c);
    }
  }

  lemma LineLacks(items: seq<string>)
    requires forall i | 0 <= i < |items| :: '\n' !in items[i]
    ensures '\n' !in DispositionLine(items)
  {
    ItemsLack(items, '\n');
    assert '\n' !in FORM_DATA;
    assert '\n' !in DISPOSITION;
  }

  lemma LacksLineBreak(text: string)
    requires '\n' !in text
    ensures !Contains(text, LF) && !Contains(text, CRLF) && Split(text, LineBreak(text)) == [text]
  {
    assert CRLF[1] == '\n' && LF[0] == '\n';
    LacksChar(text, CRLF, '\n');
    LacksChar(text, LF, '\n');
  }

  lemma NamePlain()
    ensures PlainKey("name") && IsAscii("name") && ';' !in "name"
  {
  }

  lemma FieldName(item: string, name: string)
    requires name != "" && ReadItem(item) == Some(("name", name))
    ensures NamesOf([item]) == Success((name, None))
  {
    hide ReadItem;
    var items := [item];
    assert items[1..] == [];
    assert ReadParameters(items, map[]) == map["name" := name];
  }

  /** A header block of one Content-Disposition line. */
  lemma OneLineRead(items: seq<string>)
    requires forall i | 0 <= i < |items| :: PlainItem(items[i]) && '\n' !in items[i]
    ensures ReadDisposition(DispositionLine(items)) == NamesOf(items)
  {
    hide DispositionLine, ReadLine, ReadDispositionValue, NamesOf, Split, LineBreak;
    var line := DispositionLine(items);
    LineLacks(items);
    LacksLineBreak(line);
    DispositionRead(items);
    var headers := map["content-disposition" := FORM_DATA + ItemsText(items)];
    assert ReadPartHeaders([line], map[]) == Success(headers);
    ItemsRead(items);
  }

  lemma ItemLacksLf(key: string, name: string)
    requires '\n' !in key && '\n' !in name
    ensures '\n' !in ItemText(key, name)
  {
  }

  lemma NameItemRead(name: string)
    requires name != "" && name[0] != '"' && name[|name| - 1] != '"'
    ensures NamesOf([ItemText("name", name)]) == Success((name, None))
  {
    var item := ItemText("name", name);
    assert ReadItem(item) == Some(("name", name)) by {
      NamePlain();
      Item("name", name);
    }
    FieldName(item, name);
  }

  lemma FieldHeaderRead(name: string)
    requires LegalName(name)
    ensures ReadDisposition(FieldHeader(name)) == Success((name, None))
  {
    var items := [ItemText("name", name)];
    assert PlainItem(items[0]) && '\n' !in items[0] by {
      NamePlain();
      ItemPlain("name", name);
      ItemLacksLf("name", name);
    }
    NameItemRead(name);
    OneLineRead(items);
  }

  lemma LineStartDropped(lb: string, rest: string)
    requires lb == CRLF || lb == LF
    ensures DropLineStart(lb + rest) == rest
  {
    var s := lb + rest;
    assert s[..|lb|] == lb && s[|lb|..] == rest;
    assert lb == LF ==> s[0] == '\n' && CRLF[0] == '\r';
  }

  lemma LineEndDropped(lb: string, content: string)
    requires lb == CRLF || lb == LF
    requires lb == LF && content != "" ==> content[|content| - 1] != '\r'
    ensures DropLineEnd(content + lb) == content
  {
    var s := content + lb;
    if lb == CRLF {
      assert s[|s| - 2] == '\r' && s[|s| - 1] == '\n';
    } else {
      assert s[|s| - 1] == '\n';
      assert content != "" ==> s[|s| - 2] == content[|content| - 1];
    }
    assert s[..|s| - |lb|] == content;
  }

  /** A header block that ends in a character other than a line break keeps its blank line apart. */
  lemma BlankAfter(header: string, sep: string)
    requires sep == CRLF + CRLF || sep == LF + LF
    requires header != "" && !Contains(header, sep) && header[|header| - 1] !in sep
    ensures Find(header + sep, sep) == |header|
  {
    var p, c := header[..|header| - 1], header[|header| - 1];
    SliceLacks(header, 0, |header| - 1, sep);
    CleanPart(p, c, sep);
    assert header == p + [c];
  }

  lemma CutPrinted(header: string, sep: string, rest: string)
    requires Find(header + sep, sep) == |header|
    ensures Cut(header + sep + rest, sep) == Some((header, rest))
  {
    FindDelimiter(header, sep, rest);
    var s := header + sep + rest;
    assert s[..|header|] == header && s[|header| + |sep|..] == rest;
  }

  /** A printed part is read as its header block and its content. */
  lemma PartRead(lb: string, header: string, content: string)
    requires lb == CRLF || lb == LF
    requires header != "" && header[|header| - 1] !in lb + lb && !Contains(header, lb + lb)
    requires BlankLine(header + (lb + lb) + (content + lb)) == lb + lb
    requires lb == LF && content != "" ==> content[|content| - 1] != '\r'
    ensures ReadPart(PrintPart(lb, header, content)) ==
      match ReadDisposition(header)
      case Success((name, filename)) => Success(Part(name, filename, content))
      case Failure(e) => Failure(e)
  {
    hide ReadDisposition;
    LineStartDropped(lb, header + (lb + lb) + (content + lb));
    BlankAfter(header, lb + lb);
    CutPrinted(header, lb + lb, content + lb);
    LineEndDropped(lb, content);
  }

  /** The blank line after a header block that ends in a quote is recognised as such. */
  lemma BlankRecognised(lb: string, header: string, content: string)
    requires lb == CRLF || lb == LF
    requires header != "" && '\n' !in header && header[|header| - 1] == '"'
    requires lb == LF ==> '\r' !in content
    ensures BlankLine(header + (lb + lb) + (content + lb)) == lb + lb
  {
    var sep := CRLF + CRLF;
    var text := header + (lb + lb) + (content + lb);
    if lb == CRLF {
      OccursInPrefix(header + sep, content + lb, sep, |header|);
      OccursInSuffix(header, sep, sep, |header|);
    } else {
      var p, q := header[..|header| - 1], lb + lb + (content + lb);
      assert header == p + ['"'];
      assert text == p + ['"'] + q;
      ContainsAcross(p, '"', q, sep);
      assert sep[1] == '\n' && sep[0] == '\r';
      LacksChar(p, sep, '\n');
      LacksChar(q, sep, '\r');
    }
  }

  lemma FieldHeaderShape(name: string)
    requires '\n' !in name
    ensures var h := FieldHeader(name);
      h != "" && '\n' !in h && h[|h| - 1] == '"'
  {
    var item := ItemText("name", name);
    assert item[|item| - 1] == '"';
    assert ItemsText([item]) == "; " + item + "";
    ItemLacksLf("name", name);
    LineLacks([item]);
  }

  lemma QuotedHeaderPart(lb: string, header: string, content: string, names: (string, Option<string>))
    requires lb == CRLF || lb == LF
    requires header != "" && '\n' !in header && header[|header| - 1] == '"'
    requires lb == LF ==> '\r' !in content
    requires ReadDisposition(header) == Success(names)
    ensures ReadPart(PrintPart(lb, header, content)) == Success(Part(names.0, names.1, content))
  {
    hide ReadDisposition, PrintPart, BlankLine, Find, ReadPart;
    BlankRecognised(lb, header, content);
    LacksChar(header, lb + lb, '\n');
    PartRead(lb, header, content);
  }

  /** A printed text field is read back, name and content. */
  lemma FieldPartRead(lb: string, name: string, content: string)
    requires lb == CRLF || lb == LF
    requires LegalName(name) && (lb == LF ==> '\r' !in content)
    ensures ReadPart(PrintPart(lb, FieldHeader(name), content)) == Success(Part(name, None, content))
  {
    FieldHeaderShape(name);
    FieldHeaderRead(name);
    QuotedHeaderPart(lb, FieldHeader(name), content, (name, None));
  }
}
