/**
 * The module handle: a loaded module's image, fixed at construction, and the
 * two searches over it (by token vector and by IDA-style signature text).
 *
 * The image is the module's mapped memory starting at `base`; `size` is the
 * image size the loader declared. Only the first `size` bytes may be scanned.
 * A match is reported as an offset from `base` instead of a cast pointer.
 */
module FindPattern {
  import opened Wrappers
  import opened Signature
  import opened IdaPattern

  class Module {
    const name: string
    const base: nat
    const size: nat
    const image: array<bv8>

    /** The declared size never exceeds the mapped memory. */
    ghost predicate Valid()
    {
      size <= image.Length
    }

    /** The searchable range `[base, base + size)`, as bytes. */
    ghost function Scanned(): seq<bv8>
      reads image
      requires Valid()
    {
      image[..size]
    }

    /** Binds the handle to a resolved module; base and size never change afterwards. */
    constructor (name: string, base: nat, image: array<bv8>, size: nat)
      requires size <= image.Length
      ensures this.name == name && this.base == base && this.image == image && this.size == size
      ensures Valid()
    {
      this.name := name;
      this.base := base;
      this.image := image;
      this.size := size;
    }

    /**
     * The per-start test the scanner runs: compares token by token and stops
     * at the first token that is neither equal to the byte nor the wildcard.
     * `probed` records the offsets of the bytes it reads.
     */
    method MatchesAtData(pattern: seq<Token>, data: nat) returns (matched: bool, ghost probed: set<nat>)
      requires Valid()
      requires data + |pattern| <= size
      ensures matched <==> MatchesAt(Scanned(), pattern, data)
      ensures forall j :: j in probed ==> data <= j < data + |pattern|
    {
      probed := {};
      var i := 0;
      while i < |pattern|
        invariant 0 <= i <= |pattern|
        invariant forall j :: 0 <= j < i ==> TokenMatches(pattern[j], image[data + j])
        invariant forall j :: j in probed ==> data <= j < data + i
      {
        probed := probed + {data + i};
        if image[data + i] as int != pattern[i] {
          if pattern[i] != Wildcard {
            assert !TokenMatches(pattern[i], Scanned()[data + i]);
            return false, probed;
          }
        }
        i := i + 1;
      }
      return true, probed;
    }

    /**
     * The search by token vector: every start position from the first byte up
     * to `size - |pattern|`, in ascending order, the first one that matches.
     * `probed` records every byte offset read.
     */
    method FindPattern(pattern: seq<Token>) returns (r: Option<nat>, ghost probed: set<nat>)
      requires Valid()
      ensures r == FirstMatch(Scanned(), pattern)
      ensures r.Some? ==> r.value + |pattern| <= size && MatchesAt(Scanned(), pattern, r.value)
      ensures r.Some? ==> forall j :: 0 <= j < r.value ==> !MatchesAt(Scanned(), pattern, j)
      ensures r.None? <==> forall k :: 0 <= k && k + |pattern| <= size ==> !MatchesAt(Scanned(), pattern, k)
      ensures forall j :: j in probed ==> j < size
      ensures |pattern| > size ==> r.None? && probed == {}
    {
      probed := {};
      if |pattern| > size {
        return None, probed;
      }
      var data := 0;
      while data <= size - |pattern|
        invariant data <= size - |pattern| + 1
        invariant forall j :: 0 <= j < data ==> !MatchesAt(Scanned(), pattern, j)
        invariant forall j :: j in probed ==> j < size
      {
        var matched, seen := MatchesAtData(pattern, data);
        probed := probed + seen;
        if matched {
          FirstMatchIsLeftmost(Scanned(), pattern, data);
          return Some(data), probed;
        }
        data := data + 1;
      }
      NotFoundIffNoMatch(Scanned(), pattern);
      return None, probed;
    }

    /**
     * The search by signature text: parse the text, then search for the
     * resulting token vector. `probed` records every byte offset read.
     */
    method FindIdaPattern(text: string) returns (r: Option<nat>, ghost probed: set<nat>)
      requires Valid()
      requires InAlphabet(text)
      ensures r == FirstMatch(Scanned(), Parse(text))
      ensures forall j :: j in probed ==> j < size
    {
      var pattern := ConvertIdaPatternToByteVector(text);
      r, probed := FindPattern(pattern);
    }

    /**
     * Converts signature text to a token vector in one pass with a cursor:
     * skips spaces; `?` or `??` appends one wildcard; any other character
     * appends the 16-bit truncation of the number read from it, and the cursor
     * moves two characters on. The look-ahead after `?` and the two-character
     * step stop at the end of the text.
     */
    static method ConvertIdaPatternToByteVector(text: string) returns (buffer: seq<Token>)
      requires InAlphabet(text)
      ensures buffer == Parse(text)
    {
      buffer := [];
      var i := 0;
      while i < |text|
        invariant 0 <= i <= |text|
        invariant buffer + Parse(text[i..]) == Parse(text)
      {
        ParseAt(text, i);
        if text[i] != ' ' {
          if text[i] == '?' {
            if i + 1 < |text| && text[i + 1] == '?' {
              i := i + 1;
            }
            buffer := buffer + [Wildcard];
          } else {
            buffer := buffer + [ToUint16(Strtol16(text[i..]))];
            if i + 1 < |text| {
              i := i + 1;
            } else {
              assert text[i + 1..] == [];
            }
          }
        }
        i := i + 1;
      }
    }
  }

  /** The header's example tokens match at the very start of `FC E8 11 22 33 44 8B 3D 00`. */
  lemma ScenarioTokensAtStart()
    ensures FirstMatch([0xFC, 0xE8, 0x11, 0x22, 0x33, 0x44, 0x8B, 0x3D, 0x00],
                       [0xFC, 0xE8, Wildcard, Wildcard, Wildcard, Wildcard, 0x8B, 0x3D]) == Some(0)
  {
    var mem: seq<bv8> := [0xFC, 0xE8, 0x11, 0x22, 0x33, 0x44, 0x8B, 0x3D, 0x00];
    var p: seq<Token> := [0xFC, 0xE8, Wildcard, Wildcard, Wildcard, Wildcard, 0x8B, 0x3D];
    assert MatchesAt(mem, p, 0);
    FirstMatchIsLeftmost(mem, p, 0);
  }

  /**
   * The worked scenario: the header's signature text is found at the very
   * start of `FC E8 11 22 33 44 8B 3D 00`.
   */
  lemma ScenarioFoundAtStart()
    ensures InAlphabet("FC E8 ?? ?? ?? ?? 8B 3D")
    ensures FirstMatch([0xFC, 0xE8, 0x11, 0x22, 0x33, 0x44, 0x8B, 0x3D, 0x00],
                       Parse("FC E8 ?? ?? ?? ?? 8B 3D")) == Some(0)
  {
    HeaderExampleDouble();
    ScenarioTokensAtStart();
  }
}
