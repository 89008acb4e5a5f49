/**
 * The two pure display rules of the "My Events" page: which URL an event's
 * image is loaded from, and the price label shown on each event card.
 */
module MyEvents {
  import opened Wrappers
  import opened Strings

  // ---------------------------------------------------------------------------
  // getImageUrl
  // ---------------------------------------------------------------------------

  /** The stock picture shown for an event without an image (its scheme written apart) */
  const FallbackImageUrl :=
    "https://" + "imgs.search.brave.com/SDmMp6QK8BpnygU8TIA6Gj8OpfrwxZ5xomIl51gjqhQ/rs:fit:860:0:0:0/g:ce/aHR0cHM6Ly9keWwz/NDdoaXd2M2N0LmNs/b3VkZnJvbnQubmV0/L2FwcC91cGxvYWRz/LzIwMjUvMDMvNTMx/Mzk5Njk0MjRfNTg4/YzAyZmJkY19vLXNj/YWxlZC5qcGc"

  /** The backend origin prepended to server-relative image paths */
  const ServerOrigin := "http://localhost:8080"

  /** The `src` fallback of the card's image element, used when the URL is falsy */
  const PlaceholderImage := "/placeholder.svg"

  /** A value is falsy when it is `undefined`/`null` or the empty string. */
  predicate IsFalsy(image: Option<string>) {
    image == None || image == Some("")
  }

  /**
   * `getImageUrl`: no image gives the fallback picture, an absolute URL
   * (anything starting with "http") is kept, and any other path is resolved
   * against the backend origin.
   */
  function GetImageUrl(image: Option<string>): (url: string)
    ensures StartsWith(url, "http")
  {
    if IsFalsy(image) then assert FallbackImageUrl[..4] == "http"; FallbackImageUrl
    else if StartsWith(image.value, "http") then image.value
    else ServerOrigin + image.value
  }

  /** A missing or empty image gives the fallback picture. */
  lemma MissingImageGivesFallback(image: Option<string>)
    requires IsFalsy(image)
    ensures GetImageUrl(image) == FallbackImageUrl
  {
  }

  /** An input starting with "http", such as an https URL from the image host, is returned unchanged. */
  lemma AbsoluteUrlUnchanged(image: string)
    requires StartsWith(image, "http")
    ensures GetImageUrl(Some(image)) == image
  {
  }

  /**
   * Any other non-empty input is resolved against the backend origin: the
   * result is the origin followed by the input, so the input is a suffix.
   */
  lemma RelativePathPrefixed(image: string)
    requires image != "" && !StartsWith(image, "http")
    ensures GetImageUrl(Some(image)) == ServerOrigin + image
    ensures EndsWith(GetImageUrl(Some(image)), image)
    ensures StartsWith(GetImageUrl(Some(image)), ServerOrigin)
  {
    var url := ServerOrigin + image;
    assert url[|url| - |image|..] == image;
    assert url[..|ServerOrigin|] == ServerOrigin;
  }

  /** The URL is never empty, and resolving an already resolved URL changes nothing. */
  lemma GetImageUrlIdempotent(image: Option<string>)
    ensures GetImageUrl(image) != ""
    ensures GetImageUrl(Some(GetImageUrl(image))) == GetImageUrl(image)
  {
  }

  /** The image element's `src`: the resolved URL, or the placeholder when that URL is falsy */
  function ImageSrc(image: Option<string>): string {
    var url := GetImageUrl(image);
    if url != "" then url else PlaceholderImage
  }

  /** The placeholder is never used, because the resolved URL is never empty. */
  lemma PlaceholderNeverUsed(image: Option<string>)
    ensures ImageSrc(image) == GetImageUrl(image)
    ensures ImageSrc(image) != PlaceholderImage
  {
    assert PlaceholderImage[0] == '/';
  }

  // ---------------------------------------------------------------------------
  // Price label
  // ---------------------------------------------------------------------------

  /** The `price` field of an event as the page receives it: absent, null, or a whole number */
  datatype Price = Undefined | Null | Amount(n: int)

  /** `String(price)` as a template literal renders it */
  function PriceText(price: Price): string {
    match price
    case Undefined => "undefined"
    case Null => "null"
    case Amount(n) => IntToDecimal(n)
  }

  /** The card's price label: "Free" for a free event, otherwise "$" and the price */
  function PriceLabel(isFree: bool, price: Price): string {
    if isFree then "Free" else "$" + PriceText(price)
  }

  /** The label reads "Free" exactly for free events: a paid label starts with '$'. */
  lemma FreeLabelIff(isFree: bool, price: Price)
    ensures PriceLabel(isFree, price) == "Free" <==> isFree
  {
    if !isFree {
      assert PriceLabel(isFree, price)[0] == '$';
    }
  }

  /** A paid event's label is "$" followed by the price text, whatever the price field holds. */
  lemma PaidLabelShowsPrice(price: Price)
    ensures StartsWith(PriceLabel(false, price), "$")
    ensures PriceLabel(false, price)[1..] == PriceText(price)
  {
  }

  /** The label of a paid event with a non-negative amount reads back as that amount. */
  lemma PaidLabelRoundTrip(n: nat)
    ensures var digits := PriceLabel(false, Amount(n))[1..];
      AllDigits(digits) && DecimalToNat(digits) == n
  {
    DecimalRoundTrip(n);
  }
}
