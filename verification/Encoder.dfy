/** The encoders of encode.cpp: compact, and pretty with its deferred indentation. */
module Encoders {
  import opened Bytes
  import opened Json
  import opened Integers
  import opened StringCodec

  /** What `ostream << double` writes; None for a value that is not finite. */
  type ShowDecimal = Double -> Option<bytes>

  datatype Style = Compact(show: ShowDecimal) | Pretty(show: ShowDecimal, indentSize: nat)

  function Spaces(n: nat): bytes { if n == 0 then [] else [SPACE] + Spaces(n - 1) }

  function Newline(indent: nat): bytes { [LF] + Spaces(indent) }

  function Eol(style: Style, indent: nat): bytes { if style.Pretty? then Newline(indent) else [] }

  function Gap(style: Style): bytes { if style.Pretty? then [SPACE] else [] }

  function Deeper(style: Style, indent: nat): nat { if style.Pretty? then indent + style.indentSize else indent }

  /** `stream_escaped_string`. */
  function Quoted(s: bytes): bytes { [QUOTE] + Encode(s) + [QUOTE] }

  function DecimalText(d: Double, show: ShowDecimal): bytes {
    match show(d)
    case Some(text) => text
    case None => NULL_TEXT
  }

  function ScalarText(v: Value, show: ShowDecimal): bytes
    requires !IsContainer(v)
  {
    match v
    case Null => NULL_TEXT
    case Decimal(d) => DecimalText(d, show)
    case Bool(b) => if b then TRUE_TEXT else FALSE_TEXT
    case Int(n) => Show(n)
    case Str(s) => Quoted(s)
  }

  /** The text of a tree at an indentation, without what a deferred indent puts before it. */
  function Text(v: Value, style: Style, indent: nat): bytes
    decreases v, 1
  {
    if v.Arr? then
      if v.items == [] then [LBRACKET, RBRACKET]
      else [LBRACKET] + ItemsText(v.items, style, Deeper(style, indent)) + Eol(style, indent) + [RBRACKET]
    else if v.Obj? then
      if v.members == [] then [LBRACE, RBRACE]
      else [LBRACE] + MembersText(v.members, style, Deeper(style, indent)) + Eol(style, indent) + [RBRACE]
    else ScalarText(v, style.show)
  }

  /** The items, each on its line. */
  function ItemsText(items: seq<Value>, style: Style, indent: nat): bytes
    decreases items, 0
  {
    if items == [] then []
    else
      Eol(style, indent) + Text(items[0], style, indent)
      + (if |items| == 1 then [] else [COMMA]) + ItemsText(items[1..], style, indent)
  }

  function KeyText(key: bytes, style: Style): bytes { Quoted(key) + [COLON] + Gap(style) }

  function MembersText(members: seq<Member>, style: Style, indent: nat): bytes
    decreases members, 0
  {
    if members == [] then []
    else
      assert members[0].val < members[0];
      Eol(style, indent) + KeyText(members[0].key, style) + Text(members[0].val, style, indent)
      + (if |members| == 1 then [] else [COMMA]) + MembersText(members[1..], style, indent)
  }

  /** `to_string(value)`. */
  function CompactText(v: Value, show: ShowDecimal): bytes { Text(v, Compact(show), 0) }

  function Separator(i: nat): bytes { if i > 0 then [COMMA] else [] }

  /** What a loop over the items has yet to write before item `i`. */
  function ItemsFrom(items: seq<Value>, i: nat, style: Style, indent: nat): bytes
    requires i <= |items|
  {
    (if i < |items| then Separator(i) else []) + ItemsText(items[i..], style, indent)
  }

  lemma ItemsStep(items: seq<Value>, i: nat, style: Style, indent: nat)
    requires i < |items|
    ensures ItemsFrom(items, i, style, indent)
         == Separator(i) + Eol(style, indent) + Text(items[i], style, indent) + ItemsFrom(items, i + 1, style, indent)
  {
    hide Text, Eol;
    assert items[i..][1..] == items[i + 1..];
  }

  lemma ItemsEnds(items: seq<Value>, style: Style, indent: nat)
    ensures ItemsFrom(items, 0, style, indent) == ItemsText(items, style, indent)
    ensures ItemsFrom(items, |items|, style, indent) == []
  {
    assert items[0..] == items;
  }

  function MembersFrom(members: seq<Member>, i: nat, style: Style, indent: nat): bytes
    requires i <= |members|
  {
    (if i < |members| then Separator(i) else []) + MembersText(members[i..], style, indent)
  }

  lemma MembersStep(members: seq<Member>, i: nat, style: Style, indent: nat)
    requires i < |members|
    ensures MembersFrom(members, i, style, indent)
         == Separator(i) + Eol(style, indent) + KeyText(members[i].key, style)
            + Text(members[i].val, style, indent) + MembersFrom(members, i + 1, style, indent)
  {
    hide Text, Eol, KeyText;
    assert members[i..][1..] == members[i + 1..];
  }

  lemma MembersEnds(members: seq<Member>, style: Style, indent: nat)
    ensures MembersFrom(members, 0, style, indent) == MembersText(members, style, indent)
    ensures MembersFrom(members, |members|, style, indent) == []
  {
    assert members[0..] == members;
  }

  /** One round of a loop: what the pieces add up to. */
  lemma Emitted(before: bytes, a: bytes, b: bytes, c: bytes, d: bytes, more: bytes)
    ensures before + a + b + c + d + more == before + (a + b + c + d + more)
  {
  }

  /** `ostream_encoder`. */
  class OstreamEncoder {
    const show: ShowDecimal
    var output: bytes

    constructor (showDecimal: ShowDecimal)
      ensures show == showDecimal && output == []
    {
      show, output := showDecimal, [];
    }

    method WriteString(s: bytes)
      modifies this
      ensures output == old(output) + Quoted(s)
    {
      var text := StringEncode(s);
      output := output + [QUOTE] + text + [QUOTE];
      assert output == old(output) + ([QUOTE] + text + [QUOTE]);
    }

    method WriteObjectKey(key: bytes)
      modifies this
      ensures output == old(output) + KeyText(key, Compact(show))
    {
      WriteString(key);
      output := output + [COLON];
      assert output == old(output) + (Quoted(key) + [COLON] + []);
    }

    /** `write_decimal`: what is not finite has no JSON representation. */
    method WriteDecimal(d: Double)
      modifies this
      ensures output == old(output) + DecimalText(d, show)
    {
      var text := show(d);
      if text.Some? {
        output := output + text.value;
      } else {
        output := output + NULL_TEXT;
      }
    }

    method WriteScalar(v: Value)
      requires !IsContainer(v)
      modifies this
      ensures output == old(output) + ScalarText(v, show)
    {
      match v
      case Null => output := output + NULL_TEXT;
      case Bool(b) => output := output + if b then TRUE_TEXT else FALSE_TEXT;
      case Int(n) => output := output + Show(n);
      case Decimal(d) => WriteDecimal(d);
      case Str(s) => WriteString(s);
    }

    /** `encoder::encode`. */
    method Encode(v: Value)
      modifies this
      ensures output == old(output) + CompactText(v, show)
      decreases v, 1
    {
      if v.Arr? {
        EncodeArray(v.items);
        assert output == old(output) + CompactText(v, show);
      } else if v.Obj? {
        EncodeObject(v.members);
        assert output == old(output) + CompactText(v, show);
      } else {
        WriteScalar(v);
      }
    }

    method EncodeArray(items: seq<Value>)
      modifies this
      ensures output == old(output) + ([LBRACKET] + ItemsText(items, Compact(show), 0) + [RBRACKET])
      decreases items, 0
    {
      hide ItemsText, Text, ItemsFrom;
      ItemsEnds(items, Compact(show), 0);
      output := output + [LBRACKET];
      var first := true;
      var i := 0;
      while i < |items|
        invariant i <= |items| && (first <==> i == 0)
        invariant output + ItemsFrom(items, i, Compact(show), 0)
               == old(output) + [LBRACKET] + ItemsText(items, Compact(show), 0)
      {
        ItemsStep(items, i, Compact(show), 0);
        ghost var before, more := output, ItemsFrom(items, i + 1, Compact(show), 0);
        if first {
          first := false;
        } else {
          output := output + [COMMA];
        }
        Encode(items[i]);
        Emitted(before, Separator(i), [], [], CompactText(items[i], show), more);
        i := i + 1;
      }
      assert output + [] == output;
      output := output + [RBRACKET];
    }

    method EncodeObject(members: seq<Member>)
      modifies this
      ensures output == old(output) + ([LBRACE] + MembersText(members, Compact(show), 0) + [RBRACE])
      decreases members, 0
    {
      hide MembersText, Text, MembersFrom, KeyText;
      MembersEnds(members, Compact(show), 0);
      output := output + [LBRACE];
      var first := true;
      var i := 0;
      while i < |members|
        invariant i <= |members| && (first <==> i == 0)
        invariant output + MembersFrom(members, i, Compact(show), 0)
               == old(output) + [LBRACE] + MembersText(members, Compact(show), 0)
      {
        MembersStep(members, i, Compact(show), 0);
        ghost var before, more := output, MembersFrom(members, i + 1, Compact(show), 0);
        if first {
          first := false;
        } else {
          output := output + [COMMA];
        }
        WriteObjectKey(members[i].key);
        assert members[i].val < members[i];
        Encode(members[i].val);
        Emitted(before, Separator(i), [], KeyText(members[i].key, Compact(show)), CompactText(members[i].val, show),
                more);
        i := i + 1;
      }
      assert output + [] == output;
      output := output + [RBRACE];
    }
  }

  /** `ostream_pretty_encoder`. */
  class PrettyEncoder {
    const show: ShowDecimal
    const indentSize: nat
    var output: bytes
    var indent: nat
    var deferIndent: bool

    constructor (showDecimal: ShowDecimal, size: nat)
      ensures show == showDecimal && indentSize == size && output == [] && indent == 0 && !deferIndent
    {
      show, indentSize, output, indent, deferIndent := showDecimal, size, [], 0, false;
    }

    /** The line end that is due before the next token. */
    ghost function Due(): bytes
      reads this
    {
      if deferIndent then Newline(indent) else []
    }

    method WriteEol()
      modifies `output
      ensures output == old(output) + Newline(indent)
    {
      output := output + [LF];
      var x := 0;
      while x < indent
        invariant x <= indent
        invariant output + Spaces(indent - x) == old(output) + Newline(indent)
      {
        assert Spaces(indent - x) == [SPACE] + Spaces(indent - x - 1);
        output := output + [SPACE];
        x := x + 1;
      }
      assert output + [] == output;
    }

    method WritePrefix()
      modifies `output, `deferIndent
      ensures output == old(output) + old(Due()) && !deferIndent
    {
      if deferIndent {
        WriteEol();
        deferIndent := false;
      }
    }

    method WriteScalar(v: Value)
      requires !IsContainer(v)
      modifies `output, `deferIndent
      ensures output == old(output) + old(Due()) + ScalarText(v, show) && !deferIndent
    {
      hide Newline;
      WritePrefix();
      match v
      case Null => output := output + NULL_TEXT;
      case Bool(b) => output := output + if b then TRUE_TEXT else FALSE_TEXT;
      case Int(n) => output := output + Show(n);
      case Decimal(d) => output := output + DecimalText(d, show);
      case Str(s) =>
        var text := StringEncode(s);
        output := output + ([QUOTE] + text + [QUOTE]);
    }

    method WriteObjectKey(key: bytes)
      modifies `output, `deferIndent
      ensures output == old(output) + old(Due()) + KeyText(key, Pretty(show, indentSize)) && !deferIndent
    {
      hide Newline;
      WritePrefix();
      var text := StringEncode(key);
      output := output + ([QUOTE] + text + [QUOTE] + [COLON] + [SPACE]);
    }

    /** `write_array_begin` and `write_object_begin`. */
    method WriteBegin(bracket: byte)
      modifies this
      ensures output == old(output) + old(Due()) + [bracket]
      ensures indent == old(indent) + indentSize && deferIndent
    {
      WritePrefix();
      output := output + [bracket];
      indent := indent + indentSize;
      deferIndent := true;
    }

    /** `write_array_end` and `write_object_end`. The indentation does not underflow. */
    method WriteEnd(bracket: byte)
      requires indent >= indentSize
      modifies this
      ensures indent == old(indent) - indentSize && !deferIndent
      ensures output == old(output) + (if old(deferIndent) then [] else Newline(indent)) + [bracket]
    {
      indent := indent - indentSize;
      if !deferIndent {
        WriteEol();
      }
      deferIndent := false;
      output := output + [bracket];
    }

    /** `encoder::encode`: whatever was due is written first, the indentation is restored and nothing is due. */
    method Encode(v: Value)
      modifies this
      ensures output == old(output) + old(Due()) + Text(v, Pretty(show, indentSize), old(indent))
      ensures indent == old(indent) && !deferIndent
      decreases v, 1
    {
      hide Newline;
      if v.Arr? {
        EncodeArray(v.items);
        assert output == old(output) + old(Due()) + Text(v, Pretty(show, indentSize), indent);
      } else if v.Obj? {
        EncodeObject(v.members);
        assert output == old(output) + old(Due()) + Text(v, Pretty(show, indentSize), indent);
      } else {
        WriteScalar(v);
      }
    }

    method EncodeArray(items: seq<Value>)
      modifies this
      ensures var style := Pretty(show, indentSize);
        output == old(output) + old(Due()) +
          ([LBRACKET] + ItemsText(items, style, indent + indentSize)
           + (if items == [] then [] else Newline(indent)) + [RBRACKET])
      ensures indent == old(indent) && !deferIndent
      decreases items, 0
    {
      hide ItemsText, Text, ItemsFrom, Newline;
      var style := Pretty(show, indentSize);
      WriteBegin(LBRACKET);
      ItemsEnds(items, style, indent);
      ghost var start := output;
      var first := true;
      var i := 0;
      while i < |items|
        invariant i <= |items| && (first <==> i == 0) && indent == old(indent) + indentSize
        invariant deferIndent <==> i == 0
        invariant output + ItemsFrom(items, i, style, indent) == start + ItemsText(items, style, indent)
      {
        ItemsStep(items, i, style, indent);
        ghost var before, more := output, ItemsFrom(items, i + 1, style, indent);
        if first {
          first := false;
        } else {
          WriteArrayDelimiter();
        }
        Encode(items[i]);
        Emitted(before, Separator(i), Newline(indent), [], Text(items[i], style, indent), more);
        i := i + 1;
      }
      assert output + [] == output;
      WriteEnd(RBRACKET);
    }

    method WriteArrayDelimiter()
      requires !deferIndent
      modifies `output, `deferIndent
      ensures output == old(output) + [COMMA] + Newline(indent) && !deferIndent
    {
      WritePrefix();
      output := output + [COMMA];
      WriteEol();
    }

    method EncodeObject(members: seq<Member>)
      modifies this
      ensures var style := Pretty(show, indentSize);
        output == old(output) + old(Due()) +
          ([LBRACE] + MembersText(members, style, indent + indentSize)
           + (if members == [] then [] else Newline(indent)) + [RBRACE])
      ensures indent == old(indent) && !deferIndent
      decreases members, 0
    {
      hide MembersText, Text, MembersFrom, Newline, KeyText;
      var style := Pretty(show, indentSize);
      WriteBegin(LBRACE);
      MembersEnds(members, style, indent);
      ghost var start := output;
      var first := true;
      var i := 0;
      while i < |members|
        invariant i <= |members| && (first <==> i == 0) && indent == old(indent) + indentSize
        invariant deferIndent <==> i == 0
        invariant output + MembersFrom(members, i, style, indent) == start + MembersText(members, style, indent)
      {
        MembersStep(members, i, style, indent);
        ghost var before, more := output, MembersFrom(members, i + 1, style, indent);
        if first {
          first := false;
        } else {
          output := output + [COMMA];  // `write_object_delimiter`
          deferIndent := true;
        }
        WriteObjectKey(members[i].key);
        assert members[i].val < members[i];
        Encode(members[i].val);
        Emitted(before, Separator(i), Newline(indent), KeyText(members[i].key, style),
                Text(members[i].val, style, indent), more);
        i := i + 1;
      }
      assert output + [] == output;
      WriteEnd(RBRACE);
    }
  }
}
