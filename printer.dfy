/** `smf_printer`: the code generator's output buffer. */
module SmfPrinter {
  import opened Wrappers
  import opened PrinterText

  /** `smf_printer`. */
  class Printer {
    const escapeChar: char
    var out: string
    /** `int32_t indent_`: the depth. */
    var indent: int
    var indentChar: char
    /** `uint16_t indent_step_`: characters per depth. */
    var indentStep: nat

    ghost predicate Valid()
      reads this`indent, this`indentStep
    {
      indent >= 0 && indentStep < 0x1_0000
    }

    constructor(escape: char)
      ensures escapeChar == escape && out == [] && indent == 0
      ensures indentChar == ' ' && indentStep == 2 && Valid()
    {
      escapeChar := escape;
      out := [];
      indent := 0;
      indentChar := ' ';
      indentStep := 2;
    }

    /** The prefix of every line: `indent * indentStep` copies of the
        indentation character. */
    function Indentation(): (r: string)
      reads this`indent, this`indentStep, this`indentChar
      requires Valid()
      ensures |r| == indent * indentStep && forall i :: 0 <= i < |r| ==> r[i] == indentChar
    {
      var c := indentChar;
      seq(indent * indentStep, _ => c)
    }

    /** `contents()`: everything printed so far. */
    function Contents(): string
      reads this
    {
      out
    }

    /** `print(const char *s)`: the loop appends the indentation, then the
        text up to and including the next line feed, and stops at the end
        of the text. */
    method Print(s: string)
      requires Valid()
      modifies this`out
      ensures out == old(out) + Indented(CString(s), Indentation())
    {
      var ind := Indentation();
      var rest := CString(s);
      ghost var target := old(out) + Indented(CString(s), ind);
      while true
        invariant target == out + Indented(rest, ind)
        decreases |rest|
      {
        var lf := Find(rest, '\n', 0);
        if lf.Some? {
          var line, after := rest[..lf.value + 1], rest[lf.value + 1..];
          IndentedLine(rest, ind, lf.value);
          AppendedLine(target, out, ind, line, Indented(rest, ind), Indented(after, ind), after == []);
          out := out + ind;
          out := out + line;
          rest := after;
          if rest == [] {
            break;
          }
        } else {
          IndentedLast(rest, ind);
          out := out + ind;
          out := out + rest;
          break;
        }
      }
    }

    /** `print(vars, template)`, corrected: each placeholder of the
        template is replaced by its value and the search resumes after the
        value; an unclosed placeholder or an unknown name ends the
        substitution, the rest left as it is. */
    method PrintTemplate(vars: map<string, string>, template: string)
      requires Valid()
      modifies this`out
      ensures out == old(out) + Indented(CString(ExpandFrom(vars, escapeChar, CString(template), 0)), Indentation())
    {
      var s := ExpandTemplate(vars, escapeChar, template);
      Print(s);
    }

    method Indent()
      modifies this`indent
      ensures indent == old(indent) + 1
    {
      indent := indent + 1;
    }

    /** `outdent`: the source asserts the depth stays non-negative. */
    method Outdent()
      requires indent > 0
      modifies this`indent
      ensures indent == old(indent) - 1 && indent >= 0
    {
      indent := indent - 1;
    }

    method SetIndentChar(c: char)
      modifies this`indentChar
      ensures indentChar == c
    {
      indentChar := c;
    }

    method SetIndentStep(step: nat)
      requires step < 0x1_0000
      modifies this`indentStep
      ensures indentStep == step
    {
      indentStep := step;
    }
  }
}
