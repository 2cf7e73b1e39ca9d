/** The goods-intake record that the submit action builds from the form. */
module Records {

  datatype Option<T> = None | Some(value: T)

  /** An uploaded image; only its file name is kept in the record. */
  datatype Upload = Upload(name: string)

  /** One stored intake record. `imageName` is `None` when the record has no
      `image_name` key, so two records are equal exactly when the JSON
      objects they stand for are equal. */
  datatype Entry = Entry(
    itemName: string,
    hsCode: string,
    quantity: int,
    port: string,
    reason: string,
    imageName: Option<string>)

  /** The record built on submit from the five form fields and the optional
      image upload. */
  function BuildEntry(itemName: string, hsCode: string, quantity: int, port: string,
                      reason: string, image: Option<Upload>): (e: Entry)
    ensures e.itemName == itemName && e.hsCode == hsCode && e.quantity == quantity
    ensures e.port == port && e.reason == reason
    ensures e.imageName.Some? <==> image.Some?
    ensures image.Some? ==> e.imageName.value == image.value.name
  {
    var imageName := match image
      case None => None
      case Some(upload) => Some(upload.name);
    Entry(itemName, hsCode, quantity, port, reason, imageName)
  }
}
