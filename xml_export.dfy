/**
 * The XML export: the recursive `$toXml` closure that turns a PHP array into child
 * elements of a SimpleXMLElement, under a root named after the schema. The element
 * tree is modelled as a value; its serialisation by `asXML` is not modelled.
 */
module XmlExport {
  import opened PhpValues
  import opened PhpCompare
  import opened Flattener

  /** An element: its tag, the text given to `addChild`, and its children in order. */
  datatype Element = Element(tag: string, text: string, children: seq<Element>)

  // ----- htmlspecialchars and entity decoding -----

  /** One character under PHP 7's default `htmlspecialchars` (ENT_COMPAT: single quotes are left alone). */
  function EscapeChar(c: char): string
  {
    if c == '&' then "&amp;"
    else if c == '"' then "&quot;"
    else if c == '<' then "&lt;"
    else if c == '>' then "&gt;"
    else [c]
  }

  /** `htmlspecialchars($s)` */
  function HtmlSpecialChars(s: string): string
  {
    if s == [] then [] else EscapeChar(s[0]) + HtmlSpecialChars(s[1..])
  }

  /** The predefined XML entities resolved, as libxml does with the text given to `addChild`. */
  function DecodeEntities(s: string): string
    decreases |s|
  {
    if s == [] then []
    else if |s| >= 5 && s[..5] == "&amp;" then "&" + DecodeEntities(s[5..])
    else if |s| >= 6 && s[..6] == "&quot;" then "\"" + DecodeEntities(s[6..])
    else if |s| >= 6 && s[..6] == "&apos;" then "'" + DecodeEntities(s[6..])
    else if |s| >= 4 && s[..4] == "&lt;" then "<" + DecodeEntities(s[4..])
    else if |s| >= 4 && s[..4] == "&gt;" then ">" + DecodeEntities(s[4..])
    else [s[0]] + DecodeEntities(s[1..])
  }

  lemma DecodeEscapedChar(c: char, rest: string)
    ensures DecodeEntities(EscapeChar(c) + rest) == [c] + DecodeEntities(rest)
  {
    var s := EscapeChar(c) + rest;
    if c == '&' {
      assert s[..5] == "&amp;" && s[5..] == rest;
    } else if c == '"' {
      assert s[..6] == "&quot;" && s[6..] == rest;
      assert s[..5] != "&amp;" by { assert s[1] == 'q'; }
    } else if c == '<' {
      assert s[..4] == "&lt;" && s[4..] == rest;
      assert s[1] == 'l';
      assert |s| >= 5 ==> s[..5][1] == 'l';
      assert |s| >= 6 ==> s[..6][1] == 'l';
    } else if c == '>' {
      assert s[..4] == "&gt;" && s[4..] == rest;
      assert s[1] == 'g';
      assert |s| >= 5 ==> s[..5][1] == 'g';
      assert |s| >= 6 ==> s[..6][1] == 'g';
    } else {
      assert s[0] == c && s[1..] == rest;
      assert |s| >= 4 ==> s[..4][0] == c;
      assert |s| >= 5 ==> s[..5][0] == c;
      assert |s| >= 6 ==> s[..6][0] == c;
    }
  }

  /** The escaped text, once the XML entities are resolved, is the original text. */
  lemma {:induction false} DecodeEscaped(s: string)
    ensures DecodeEntities(HtmlSpecialChars(s)) == s
  {
    if s != [] {
      DecodeEscapedChar(s[0], HtmlSpecialChars(s[1..]));
      DecodeEscaped(s[1..]);
      assert s == [s[0]] + s[1..];
    }
  }

  /** Escaped text holds no markup character. */
  lemma {:induction false} EscapedHasNoMarkup(s: string)
    ensures forall i :: 0 <= i < |HtmlSpecialChars(s)| ==>
      HtmlSpecialChars(s)[i] != '<' && HtmlSpecialChars(s)[i] != '>' && HtmlSpecialChars(s)[i] != '"'
  {
    if s != [] {
      EscapedHasNoMarkup(s[1..]);
      var head := EscapeChar(s[0]);
      var tail := HtmlSpecialChars(s[1..]);
      assert HtmlSpecialChars(s) == head + tail;
      forall i | 0 <= i < |head + tail|
        ensures (head + tail)[i] != '<' && (head + tail)[i] != '>' && (head + tail)[i] != '"'
      {
        if i >= |head| {
          assert (head + tail)[i] == tail[i - |head|];
        }
      }
    }
  }

  // ----- the recursive builder -----

  /**
   * The child `$toXml` adds for one entry: an array under a numeric key becomes an
   * `item` element and an array under any other key an element with that key as
   * tag, both built recursively; a scalar becomes an element with the key as tag
   * and the escaped value as text.
   */
  function XmlChild(k: Key, v: Value): Element
    decreases v
  {
    match v
    case Arr(e) =>
      Element(if IsNumericKey(k) then "item" else KeyText(k), "",
              seq(|e|, i requires 0 <= i < |e| => XmlChild(e[i].0, e[i].1)))
    case _ => Element(KeyText(k), HtmlSpecialChars(Text(v)), [])
  }

  /**
   * One entry of `$toXml`: an array value gives an element without text, tagged `item`
   * under a numeric key and with the key otherwise, holding one child per entry of the
   * array in order; a scalar gives a leaf tagged with the key whose text holds no
   * markup and resolves back to the value's string form.
   */
  lemma XmlChildShape(k: Key, v: Value)
    ensures var el := XmlChild(k, v);
      && el.tag == (if v.Arr? && IsNumericKey(k) then "item" else KeyText(k))
      && (v.Arr? ==>
            && el.text == ""
            && |el.children| == |v.entries|
            && forall i :: 0 <= i < |v.entries| ==> el.children[i] == XmlChild(v.entries[i].0, v.entries[i].1))
      && (!v.Arr? ==>
            && el.children == []
            && DecodeEntities(el.text) == Text(v)
            && forall i :: 0 <= i < |el.text| ==> el.text[i] != '<' && el.text[i] != '>' && el.text[i] != '"')
  {
    if !v.Arr? {
      DecodeEscaped(Text(v));
      EscapedHasNoMarkup(Text(v));
    }
  }

  /** The children `$toXml($array, $xml)` appends to `$xml`, one per entry, in order. */
  function XmlChildren(a: Entries): seq<Element>
  {
    seq(|a|, i requires 0 <= i < |a| => XmlChild(a[i].0, a[i].1))
  }

  /** The result rows as the PHP list `$rows`, keyed 0..n-1. */
  function RowList(rows: seq<Row>): Entries
  {
    seq(|rows|, i requires 0 <= i < |rows| => (Idx(i), Arr(rows[i])))
  }

  /** `$toXml($rows, new SimpleXMLElement("<name></name>"))` */
  function XmlDocument(schemaName: string, rows: seq<Row>): Element
  {
    Element(schemaName, "", XmlChildren(RowList(rows)))
  }

  /**
   * For flattened rows the document has two levels under the root, which is named
   * after the schema: one `item` per row, in order, and in each item one element
   * per column, tagged with the column name, whose text resolves to the cell's
   * string value.
   */
  lemma XmlOfFlatRows(schemaName: string, rows: seq<Row>)
    requires IsFlat(rows)
    ensures var doc := XmlDocument(schemaName, rows);
      && doc.tag == schemaName
      && |doc.children| == |rows|
      && (forall i :: 0 <= i < |rows| ==>
            doc.children[i].tag == "item" && |doc.children[i].children| == |rows[i]|)
      && (forall i, j :: 0 <= i < |rows| && 0 <= j < |rows[i]| ==>
            var cell := doc.children[i].children[j];
            && cell.tag == KeyText(rows[i][j].0)
            && cell.children == []
            && DecodeEntities(cell.text) == Text(rows[i][j].1))
  {
    var doc := XmlDocument(schemaName, rows);
    forall i, j | 0 <= i < |rows| && 0 <= j < |rows[i]|
      ensures var cell := doc.children[i].children[j];
        && cell.tag == KeyText(rows[i][j].0)
        && cell.children == []
        && DecodeEntities(cell.text) == Text(rows[i][j].1)
    {
      assert doc.children[i] == XmlChild(Idx(i), Arr(rows[i]));
      assert !rows[i][j].1.Arr?;
      DecodeEscaped(Text(rows[i][j].1));
    }
  }
}
