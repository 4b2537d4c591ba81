/** Quantized formats: names and aliases, bits a weight, block sizes, kernels. */
module FormatSpecs {
  import opened Wrappers
  import opened AsciiText

  /** Bits a weight are scaled by ten thousand. */
  datatype FormatSpec = FormatSpec(name: string, bits: nat, blockBytes: nat)

  const BLOCK_ELEMENTS: nat := 256
  const TOP: string := "Q8_K_XL"
  const TOP_BITS: nat := 91250

  function Spec(format: string): Option<FormatSpec> {
    UpperSpec(Upper(format))
  }

  function UpperSpec(f: string): Option<FormatSpec> {
    if f == "Q3_K" || f == "Q3_K_S" then Some(FormatSpec("Q3_K_S", 34375, 110))
    else if f == "Q4_K" || f == "Q4_K_S" then Some(FormatSpec("Q4_K_S", 45000, 144))
    else if f == "Q4_K_M" then Some(FormatSpec("Q4_K_M", 47500, 152))
    else if f == "Q5_K" || f == "Q5_K_M" then Some(FormatSpec("Q5_K_M", 57500, 176))
    else if f == "Q6_K" then Some(FormatSpec("Q6_K", 65625, 210))
    else if f == "Q8_K" || f == "Q8_K_XL" || f == "UD-Q8_K_XL" || f == "UD_Q8_K_XL" then
      Some(FormatSpec("Q8_K_XL", 91250, 292))
    else None
  }

  lemma UpperNames()
    ensures Upper("Q3_K_S") == "Q3_K_S" && Upper("Q4_K_S") == "Q4_K_S" && Upper("Q4_K_M") == "Q4_K_M"
    ensures Upper("Q5_K_M") == "Q5_K_M" && Upper("Q6_K") == "Q6_K" && Upper("Q8_K_XL") == "Q8_K_XL"
  {
    hide Upper;
    UpperAlready("Q3_K_S");
    UpperAlready("Q4_K_S");
    UpperAlready("Q4_K_M");
    UpperAlready("Q5_K_M");
    UpperAlready("Q6_K");
    UpperAlready("Q8_K_XL");
  }

  /** A format's name names the same format, and only the top format has the top bits. */
  lemma SpecFacts(format: string)
    ensures Spec(format).Some? ==>
              var spec := Spec(format).value;
              && Spec(spec.name) == Some(spec) && 34375 <= spec.bits <= TOP_BITS && spec.blockBytes > 0
              && (spec.bits == TOP_BITS <==> spec.name == TOP)
              && 'x' !in spec.name
  {
    UpperNames();
    hide Upper;
  }

  lemma TopSpec()
    ensures Spec(TOP) == Some(FormatSpec(TOP, TOP_BITS, 292))
  {
    UpperNames();
    hide Upper;
  }

  /** More bits a weight always means larger blocks. */
  lemma BlocksFollowBits(a: string, b: string)
    requires Spec(a).Some? && Spec(b).Some?
    ensures Spec(a).value.bits < Spec(b).value.bits <==> Spec(a).value.blockBytes < Spec(b).value.blockBytes
  {
    hide Upper;
  }

  function DivCeil(x: nat, unit: nat): nat
    requires unit > 0
  {
    (x + unit - 1) / unit
  }

  function QuantizedBytes(spec: FormatSpec, elements: nat): nat {
    DivCeil(elements, BLOCK_ELEMENTS) * spec.blockBytes
  }

  function KernelFor(format: string, backend: string): string {
    "har." + Lower(backend) + ".gemm." + DashToUnderscore(Lower(format))
  }

  /** Every block takes the bytes its bits a weight say, but for Q5_K_M, which takes a quarter bit less. */
  lemma BlocksHoldTheirBits(format: string)
    requires Spec(format).Some?
    ensures var spec := Spec(format).value;
            && (spec.name != "Q5_K_M" ==> spec.blockBytes * 8 * 10000 == spec.bits * BLOCK_ELEMENTS)
            && (spec.name == "Q5_K_M" ==> spec.blockBytes * 8 * 10000 == (spec.bits - 2500) * BLOCK_ELEMENTS)
  {
    hide Upper;
  }

  /** Whole blocks, as many as the elements need and no more. */
  lemma QuantizedIs(spec: FormatSpec, elements: nat) returns (blocks: nat)
    ensures QuantizedBytes(spec, elements) == blocks * spec.blockBytes
    ensures blocks * BLOCK_ELEMENTS >= elements && (blocks > 0 ==> (blocks - 1) * BLOCK_ELEMENTS < elements)
  {
    blocks := DivCeil(elements, BLOCK_ELEMENTS);
  }

  /** The kernel's name: backend and format in lower case, dashes as underscores in the format. */
  lemma KernelNames(format: string, backend: string)
    ensures var k, b := KernelFor(format, backend), |backend|;
            && |k| == 10 + b + |format| && k[..4] == "har." && k[4 + b..10 + b] == ".gemm."
            && (forall i :: 0 <= i < b ==> k[4 + i] == LowerChar(backend[i]))
            && (forall i :: 0 <= i < |format| ==>
                  k[10 + b + i] == if format[i] == '-' then '_' else LowerChar(format[i]))
  {
    var k, b := KernelFor(format, backend), |backend|;
    var low := DashToUnderscore(Lower(format));
    assert k == "har." + Lower(backend) + ".gemm." + low;
    forall i | 0 <= i < b ensures k[4 + i] == LowerChar(backend[i]) {
      CharsOfText(backend, i);
    }
    forall i | 0 <= i < |format| ensures k[10 + b + i] == if format[i] == '-' then '_' else LowerChar(format[i]) {
      CharsOfText(format, i);
      CharsOfText(Lower(format), i);
    }
  }

  /** A known name is the start of the canonical one, or that one behind "UD"; and these are all. */
  lemma NamesAndAliases(format: string)
    ensures var f := Upper(format);
            && (Spec(format).Some? <==> f in {"Q3_K", "Q3_K_S", "Q4_K", "Q4_K_S", "Q4_K_M", "Q5_K", "Q5_K_M", "Q6_K",
                                              "Q8_K", "Q8_K_XL", "UD-Q8_K_XL", "UD_Q8_K_XL"})
            && (Spec(format).Some? ==>
                  var name := Spec(format).value.name;
                  f <= name || (|f| == 3 + |name| && f[..2] == "UD" && f[3..] == name))
  {
    hide Upper;
  }
}
