/** Word-aligned bitmaps (MWIMAGEHDR with its pitch padded to 32 bits) and their pixel bits. */
module Images {
  import opened Bits
  import opened Masks
  import opened Rows

  /** What an image's memory shows: bit x of row y. */
  datatype Pic = Pic(wpl: nat, height: nat, words: seq<Word>) {

    ghost predicate Valid() {
      Row(wpl, height) <= |words|
    }

    predicate In(x: int, y: int) {
      0 <= x < 32 * wpl && 0 <= y < height
    }

    ghost function Bit(e: Endian, x: int, y: int): bool
      requires Valid() && In(x, y)
    {
      Index(x / 32, y);
      Pix(e, words[Row(wpl, y) + x / 32], x % 32)
    }

    lemma Index(c: int, y: int)
      requires Valid() && 0 <= c < wpl && 0 <= y < height
      ensures 0 <= Row(wpl, y) + c < Row(wpl, height)
    {
      RowMonotone(wpl, y, height);
    }

    lemma IndexInjective(c: int, y: int, c': int, y': int)
      requires 0 <= c < wpl && 0 <= c' < wpl && 0 <= y && 0 <= y' && y != y'
      ensures Row(wpl, y) + c != Row(wpl, y') + c'
    {
      if y < y' {
        RowMonotone(wpl, y, y');
      } else {
        RowMonotone(wpl, y', y);
      }
    }

    lemma BitOfWord(e: Endian, p: int, c: int, k: int, x: int, y: int)
      requires Valid() && In(32 * c, y) && p == Row(wpl, y) + c
      requires 0 <= k < 32 && x == 32 * c + k
      ensures 0 <= p < |words| && In(x, y) && Pix(e, words[p], k) == Bit(e, x, y)
    {
      Index(c, y);
      assert x / 32 == c && x % 32 == k;
    }

    lemma BitAfterPut(e: Endian, p: int, w: Word, c: int, y: int, x: int, y': int)
      requires Valid() && In(32 * c, y) && p == Row(wpl, y) + c && In(x, y')
      ensures 0 <= p < |words|
      ensures var after := this.(words := words[p := w]);
        after.Valid() && after.Bit(e, x, y') == if y' == y && x / 32 == c then Pix(e, w, x % 32) else Bit(e, x, y')
    {
      Index(c, y);
      Index(x / 32, y');
      if y' != y { IndexInjective(x / 32, y', c, y); }
    }
  }

  class Image {
    const width: nat
    const height: nat
    const bpp: nat
    const pitch: nat
    const wpl: nat
    const data: array<Word>

    constructor (width: nat, height: nat, bpp: nat, pitch: nat, data: array<Word>)
      ensures this.width == width && this.height == height && this.bpp == bpp
      ensures this.pitch == pitch && this.wpl == pitch / 4 && this.data == data
    {
      this.width, this.height, this.bpp, this.pitch, this.wpl, this.data := width, height, bpp, pitch, pitch / 4, data;
    }

    ghost predicate Valid() {
      pitch == 4 * wpl && Row(wpl, height) <= data.Length
    }

    ghost function View(): Pic
      reads data
    {
      Pic(wpl, height, data[..])
    }
  }
}
