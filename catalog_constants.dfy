/**
 * The catalog's constants (lines 18-24), and the shape of the URL
 * constants that the pattern proofs rely on.
 */
module CatalogConstants {

  /** The key under which the catalog id is stored in a record's identifiers. */
  const ProviderId := "jinjiang"

  /** `JINJIANG_BOOK_URL` is `BookUrlPrefix + "%s"`; the prefix is split where the id pattern starts. */
  const BookUrlHead := "https://www"
  /** The id pattern after its leading `.`: `jjwxc\.net\/onebook\.php\?novelid=`. */
  const UrlLiteral := "jjwxc.net/onebook.php?novelid="
  const BookUrlPrefix := BookUrlHead + "." + UrlLiteral
  /** `JINJIANG_BOOKCOVER_URL` is `BookCoverUrlPrefix + "%s"`. */
  const BookCoverUrlPrefix := "https://i9-static.jjwxc.net/novelimage.php?novelid="

  lemma UrlLengths()
    ensures |BookUrlHead| == 11 && |UrlLiteral| == 30 && |BookUrlPrefix| == 42
  {
  }

  /** Only the literal's first two characters are `j`; the third is `w`. */
  lemma UrlLiteralLetters()
    ensures UrlLiteral[0] == 'j' && UrlLiteral[1] == 'j' && UrlLiteral[2] == 'w'
    ensures forall k :: 2 <= k < |UrlLiteral| ==> UrlLiteral[k] != 'j'
  {
  }

  /** The `https://www.` in front of the literal holds no `j`. */
  lemma BookUrlHeadLetters()
    ensures forall k :: 0 <= k < |BookUrlHead| ==> BookUrlHead[k] != 'j'
  {
  }

  lemma BookUrlPrefixParts()
    ensures BookUrlPrefix[..|BookUrlHead|] == BookUrlHead && BookUrlPrefix[|BookUrlHead|] == '.'
    ensures BookUrlPrefix[|BookUrlHead| + 1..] == UrlLiteral
  {
  }
}
