/** Model of src/sudoku_board/cell.rs: the candidate mask `CellOptions` and the
    `Cell` that pairs a stored character with its mask.

    Both are `Copy` structs in the source and live by value inside the board's
    array, so they are modelled as datatypes: a method that takes `&mut self`
    becomes a function returning the updated value, which the board writes back
    into its array slot.

    The mask's `u16` is represented by the set of positions of its set bits, each
    below 16. Under that reading `|` is union, `&` is intersection, `!` is the
    complement within the 16 bits and `0x1 << k` is `{k}`; bit k stands for the
    digit k + 1. */
module SudokuCell {

  /** The number of bits of the `u16` that holds a mask. */
  const WIDTH: nat := 16

  /** A `u16` value, given by the positions of its set bits. */
  type U16Bits = s: set<nat> | forall k | k in s :: k < WIDTH

  /** Every bit of the `u16`, 0xFFFF. */
  const FULL: U16Bits := set k: nat | k < WIDTH

  /** `CellOptions::ALL` = 0x1FF: bits 0..8, one per digit. */
  const ALL: U16Bits := set k: nat | k < 9

  /** `!v` on a `u16`. */
  function Complement(bits: U16Bits): U16Bits {
    set k: nat | k < WIDTH && k !in bits
  }

  /** The lowest set bit at or above `k`, when every set bit is at or above `k`. */
  function LowestFrom(bits: U16Bits, k: nat): (r: nat)
    requires bits != {} && forall j | j in bits :: k <= j
    ensures r in bits && forall j | j in bits :: r <= j
    decreases WIDTH - k
  {
    if k in bits then k
    else
      assert k < WIDTH by {
        var j :| j in bits;
      }
      LowestFrom(bits, k + 1)
  }

  /** The position of the lowest set bit of a non-zero value. */
  function Lowest(bits: U16Bits): (r: nat)
    requires bits != {}
    ensures r in bits && forall j | j in bits :: r <= j
  {
    LowestFrom(bits, 0)
  }

  /** `v - 1` for a non-zero `v`: the lowest set bit is cleared and every bit
      below it becomes set. */
  function MinusOne(bits: U16Bits): U16Bits
    requires bits != {}
  {
    var low := Lowest(bits);
    (bits - {low}) + (set k | k in FULL && k < low)
  }

  /** The characters a cell can be assigned. */
  predicate IsDigit(c: char) {
    '1' <= c <= '9'
  }

  /** The shift amount `(c as u32) - ('1' as u32)` of `set_one` and `unset`: in Rust
      `-` binds tighter than `<<`. Every call site passes a digit, so it is required
      here. On other characters the code would not panic uniformly: `':'..'@'` give
      shifts 9..15, which set or clear a bit outside `0x1FF`; only a character
      below `'1'`, or 16 or more past it, overflows the subtraction or the shift,
      and that panics only in a debug build. */
  function Pos(c: char): nat
    requires IsDigit(c)
  {
    c as int - '1' as int
  }

  /** A 9-bit candidate mask held in a `u16`: bit k set means digit k + 1 is still possible. */
  datatype CellOptions = CellOptions(bits: U16Bits) {

    /** No bit outside `ALL` is set. */
    predicate InRange() {
      bits <= ALL
    }

    /** Digit `c` is still a candidate. */
    predicate Has(c: char)
      requires IsDigit(c)
    {
      Pos(c) in bits
    }

    /** `CellOptions::new`: every digit is a candidate. */
    static function New(): (r: CellOptions)
      ensures r.InRange()
      ensures forall d | IsDigit(d) :: r.Has(d)
      ensures !r.HasOneOption()
    {
      var r := CellOptions(ALL);
      assert 0 in r.bits && 1 in r.bits;
      PowerOfTwoTest(r);
      r
    }

    /** `CellOptions::clear`: the mask becomes `ALL`, whatever it held. */
    function Clear(): (r: CellOptions)
      ensures r == New()
      ensures InRange() <==> bits <= r.bits
    {
      CellOptions(ALL)
    }

    /** `CellOptions::set_one`: the mask becomes the single bit `0x1 << (c - '1')`. */
    function SetOne(c: char): (r: CellOptions)
      requires IsDigit(c)
      ensures r.InRange()
      ensures forall d | IsDigit(d) :: r.Has(d) <==> d == c
      ensures r.HasOneOption() && r.GetLastOption() == c
    {
      var r := CellOptions({Pos(c)});
      PowerOfTwoTest(r);
      r
    }

    /** `CellOptions::has_one_option`, the power-of-two test
        `v > 0 && (v == 1 || v & (v - 1) == 0)`. */
    predicate HasOneOption() {
      if bits != {} then bits == {0} || bits * MinusOne(bits) == {} else false
    }

    /** `CellOptions::get_last_option`: the digit of the sole bit, matched against
        0x001..0x100 (here: the bit's position against 0..8); the `_` arm gives
        `' '`, which happens exactly when that bit lies outside `ALL`. */
    function GetLastOption(): (r: char)
      requires HasOneOption()
      ensures InRange() ==> IsDigit(r) && bits == {Pos(r)}
      ensures r == ' ' <==> !InRange()
    {
      PowerOfTwoTest(this);
      match Lowest(bits)
      case 0 => '1'
      case 1 => '2'
      case 2 => '3'
      case 3 => '4'
      case 4 => '5'
      case 5 => '6'
      case 6 => '7'
      case 7 => '8'
      case 8 => '9'
      case _ => ' '
    }

    /** `CellOptions::unset`: `v & !(0x1 << (c - '1'))` clears the bit of `c` and nothing else. */
    function Unset(c: char): (r: CellOptions)
      requires IsDigit(c)
      ensures r.bits == bits - {Pos(c)}
      ensures forall d | IsDigit(d) :: r.Has(d) <==> Has(d) && d != c
      ensures InRange() ==> r.InRange()
    {
      CellOptions(bits * Complement({Pos(c)}))
    }

    /** `CellOptions::union`: `self.value | other.value`. */
    function Union(other: CellOptions): (r: CellOptions)
      ensures forall d | IsDigit(d) :: r.Has(d) <==> Has(d) || other.Has(d)
      ensures bits <= r.bits && other.bits <= r.bits
      ensures InRange() && other.InRange() ==> r.InRange()
    {
      CellOptions(bits + other.bits)
    }

    /** `CellOptions::intersection`: `self.value & other.value`. */
    function Intersection(other: CellOptions): (r: CellOptions)
      ensures forall d | IsDigit(d) :: r.Has(d) <==> Has(d) && other.Has(d)
      ensures r.bits <= bits && r.bits <= other.bits
      ensures InRange() || other.InRange() ==> r.InRange()
    {
      CellOptions(bits * other.bits)
    }

    /** `CellOptions::difference`: `self.value & !other.value`, the bits of this mask
        that are not in `other`. */
    function Difference(other: CellOptions): (r: CellOptions)
      ensures r.bits == bits - other.bits
      ensures forall d | IsDigit(d) :: r.Has(d) <==> Has(d) && !other.Has(d)
      ensures InRange() ==> r.InRange()
    {
      CellOptions(bits * Complement(other.bits))
    }
  }

  /** `Cell::has_one_option` holds exactly when the cell's mask has one bit, and
      then the mask is that bit alone. */
  lemma CellHasOneOption(cell: Cell)
    ensures cell.HasOneOption() <==> |cell.opt.bits| == 1
    ensures cell.HasOneOption() ==> cell.opt.bits == {Lowest(cell.opt.bits)}
  {
    PowerOfTwoTest(cell.opt);
  }

  /** `Cell::is_set` holds exactly when the stored character is a digit. On a
      consistent cell the character and the mask agree: the cell is assigned
      exactly when the mask has one candidate, and otherwise it stores `' '`. */
  lemma CellIsSet(cell: Cell)
    ensures cell.IsSet() <==> IsDigit(cell.c)
    ensures cell.Consistent() ==> (cell.IsSet() <==> cell.HasOneOption())
    ensures cell.Consistent() && !cell.IsSet() ==> cell.c == ' '
  {
    CellHasOneOption(cell);
  }

  /** The power-of-two test holds exactly when one bit is set, that is, when the
      value is `0x1 << k` for its lowest set bit k. */
  lemma PowerOfTwoTest(o: CellOptions)
    ensures o.HasOneOption() <==> |o.bits| == 1
    ensures o.HasOneOption() ==> o.bits == {Lowest(o.bits)}
  {
    if o.bits != {} {
      var low := Lowest(o.bits);
      var below := set k | k in FULL && k < low;
      assert o.bits * MinusOne(o.bits) == o.bits - {low} by {
        assert o.bits * below == {};
      }
      if |o.bits| == 1 {
        var rest := o.bits - {low};
        assert o.bits == rest + {low};
        assert |rest| == 0;
      }
      if o.bits - {low} == {} {
        assert o.bits == {low};
      }
    }
  }

  /** Within `ALL`, `has_one_option` holds exactly for the nine masks 0x001..0x100,
      the results of `set_one`; in particular it is false on the empty mask. */
  lemma HasOneOptionIffSetOne(o: CellOptions)
    requires o.InRange()
    ensures o.HasOneOption() <==> exists d | IsDigit(d) :: o == o.SetOne(d)
    ensures o.bits == {} ==> !o.HasOneOption()
  {
    if o.HasOneOption() {
      var d := o.GetLastOption();
      assert o == o.SetOne(d);
    }
  }

  /** `get_last_option` undoes `set_one`. */
  lemma GetLastOptionOfSetOne(o: CellOptions, c: char)
    requires IsDigit(c)
    ensures o.SetOne(c).HasOneOption() && o.SetOne(c).GetLastOption() == c
  {
  }

  /** Unsetting the same digit twice is the same as unsetting it once, and unsetting
      a digit that is not a candidate changes nothing. */
  lemma UnsetIdempotent(o: CellOptions, c: char)
    requires IsDigit(c)
    ensures o.Unset(c).Unset(c) == o.Unset(c)
    ensures !o.Has(c) ==> o.Unset(c) == o
  {
  }

  /** The laws of the candidate-set algebra: `difference(a, a)` is empty and
      `difference(a, b)` is disjoint from `b`; `union(a, ALL)` is `ALL` for a mask
      within range; the intersection with the empty mask is empty. */
  lemma AlgebraLaws(a: CellOptions, b: CellOptions)
    ensures a.Difference(a).bits == {}
    ensures a.Difference(b).bits * b.bits == {} && a.Difference(b).bits <= a.bits
    ensures a.InRange() ==> a.Union(CellOptions.New()) == CellOptions.New()
    ensures a.Intersection(CellOptions({})).bits == {}
  {
  }

  /** `Cell`: the stored character (`' '` when unassigned) and the candidate mask.
      `character()` and `options()` are the fields `c` and `opt`. */
  datatype Cell = Cell(c: char, opt: CellOptions) {

    /** `Cell::new`: unassigned, every digit a candidate. */
    static function New(): (r: Cell)
      ensures r.c == ' ' && !r.IsSet()
      ensures r.opt == CellOptions.New()
      ensures r.Consistent()
    {
      Cell(' ', CellOptions.New())
    }

    /** `Cell::clear`: back to the unassigned cell with the full mask. */
    function Clear(): (r: Cell)
      ensures r == New()
    {
      Cell(' ', opt.Clear())
    }

    /** `Cell::set`: store `ch` and collapse the mask to its single bit. */
    function Set(ch: char): (r: Cell)
      requires IsDigit(ch)
      ensures r.IsSet() && r.c == ch
      ensures r.opt.bits == {Pos(ch)}
      ensures r.HasOneOption() && r.opt.GetLastOption() == ch
      ensures r.Consistent()
    {
      Cell(ch, opt.SetOne(ch))
    }

    /** `Cell::is_set`. */
    predicate IsSet() {
      '1' <= c <= '9'
    }

    /** `Cell::apply_option`: the stored character becomes the mask's sole member;
        the mask itself is unchanged. */
    function ApplyOption(): (r: Cell)
      requires HasOneOption()
      ensures r.opt == opt
      ensures opt.InRange() ==> r.IsSet() && r.opt.bits == {Pos(r.c)} && r.Consistent()
    {
      Cell(opt.GetLastOption(), opt)
    }

    /** `Cell::remove_option`: unsets `ch` in the mask and never touches the character. */
    function RemoveOption(ch: char): (r: Cell)
      requires IsDigit(ch)
      ensures r.c == c
      ensures r.opt.bits == opt.bits - {Pos(ch)}
    {
      Cell(c, opt.Unset(ch))
    }

    /** `Cell::has_one_option`, delegated to the mask (see `CellHasOneOption`). */
    predicate HasOneOption() {
      opt.HasOneOption()
    }

    /** What the engine keeps true of every cell: the mask stays within `ALL`; an
        assigned cell's mask is the single bit of its digit; an unassigned cell
        stores `' '` and never holds exactly one candidate (it would have been
        assigned at once). */
    predicate Consistent() {
      && opt.InRange()
      && (if IsSet() then opt.bits == {Pos(c)} else c == ' ' && !opt.HasOneOption())
    }
  }
}
