/**
 * The `App` component's state and its event handlers. Each `useState` slot
 * is a field; each handler is a method that sets the slots the source sets,
 * in the same cases, and leaves the others alone.
 */
module App {
  import opened Wrappers
  import opened Formats
  import opened Validation
  import opened Conversion

  /** `validationStatus`: `null`, `'valid'` or `'invalid'`. */
  datatype Status = NoStatus | StatusValid | StatusInvalid

  /** What a click on the download link saves: the file name and the Blob's contents. */
  datatype Download = Download(fileName: string, artifact: Artifact)

  class Session {
    var file: Option<SelectedFile>
    var loading: bool
    var validationStatus: Status
    var validationError: Option<string>
    var serverError: Option<string>
    var successMessage: Option<string>
    var previewData: Option<Preview>
    var convertedData: Option<Converted>
    var downloadUrl: Option<Artifact>

    /**
     * What every handler keeps, with each file read and each request taken
     * as completed before the next event: a verdict and its error and preview
     * go together; a result and its download go together, exist only while a
     * file is selected, and are in the format that file's name selects; a
     * success message and a server error never show at once; nothing is left
     * loading. A file removed and replaced while a request is pending breaks
     * the format clause in the source; that interleaving is not modelled.
     */
    ghost predicate Valid()
      reads this
    {
      && (validationStatus == NoStatus ==> validationError.None? && previewData.None?)
      && (validationStatus == StatusValid ==> validationError.None? && previewData.Some?)
      && (validationStatus == StatusInvalid ==> validationError.Some? && previewData.None?)
      && (convertedData.Some? <==> downloadUrl.Some?)
      && (downloadUrl.Some? ==>
            && file.Some?
            && Matches(convertedData.value, downloadUrl.value)
            && (downloadUrl.value.JsonArtifact? <==> SourceFormat(file.value.name) == Csv))
      && !(successMessage.Some? && serverError.Some?)
      && (successMessage.Some? ==> downloadUrl.Some?)
      && !loading
    }

    /** The initial state: every slot `null`, not loading. */
    constructor ()
      ensures Valid()
      ensures file.None? && validationStatus == NoStatus && validationError.None? && previewData.None?
      ensures convertedData.None? && downloadUrl.None? && serverError.None? && successMessage.None?
    {
      file := None;
      loading := false;
      validationStatus := NoStatus;
      validationError := None;
      serverError := None;
      successMessage := None;
      previewData := None;
      convertedData := None;
      downloadUrl := None;
    }

    /**
     * `reader.onload` for file `f`: record the verdict. A valid file sets the
     * preview and clears the error; an error thrown anywhere in the check
     * becomes the validation error and clears the preview. Nothing else
     * changes, and nothing checks that `f` is still the selected file.
     */
    method OnLoad(f: SelectedFile)
      requires Valid()
      modifies this
      ensures Valid()
      ensures Validate(f).Success? ==>
        validationStatus == StatusValid && validationError.None? && previewData == Some(Validate(f).value)
      ensures Validate(f).Failure? ==>
        validationStatus == StatusInvalid && validationError == Some(Validate(f).error) && previewData.None?
      ensures file == old(file) && loading == old(loading) && serverError == old(serverError)
      ensures successMessage == old(successMessage)
      ensures convertedData == old(convertedData) && downloadUrl == old(downloadUrl)
    {
      match Validate(f)
      case Success(preview) =>
        previewData := Some(preview);
        validationStatus := StatusValid;
        validationError := None;
      case Failure(message) =>
        validationStatus := StatusInvalid;
        validationError := Some(message);
        previewData := None;
    }

    /**
     * `handleFileChange`: with no file selected nothing happens; otherwise the
     * file is taken and the previous result and messages are cleared. The
     * verdict is left as it was until `OnLoad` delivers the new one.
     */
    method HandleFileChange(selected: Option<SelectedFile>)
      requires Valid()
      modifies this
      ensures Valid()
      ensures selected.None? ==>
        && file == old(file) && convertedData == old(convertedData) && downloadUrl == old(downloadUrl)
        && serverError == old(serverError) && successMessage == old(successMessage)
      ensures selected.Some? ==>
        file == selected && convertedData.None? && downloadUrl.None? && serverError.None? && successMessage.None?
      ensures validationStatus == old(validationStatus) && validationError == old(validationError)
      ensures previewData == old(previewData) && loading == old(loading)
    {
      if selected.Some? {
        file := selected;
        convertedData := None;
        downloadUrl := None;
        serverError := None;
        successMessage := None;
      }
    }

    /** `handleFileRemove`: every slot but `loading` back to `null`. */
    method HandleFileRemove()
      requires Valid()
      modifies this
      ensures Valid()
      ensures file.None? && validationStatus == NoStatus && validationError.None? && previewData.None?
      ensures convertedData.None? && downloadUrl.None? && serverError.None? && successMessage.None?
      ensures loading == old(loading)
    {
      file := None;
      validationStatus := NoStatus;
      validationError := None;
      previewData := None;
      convertedData := None;
      downloadUrl := None;
      serverError := None;
      successMessage := None;
    }

    /**
     * `handleConvert`, with the service answering `reply`. Unless a file is
     * selected and its verdict is valid, nothing changes and no request is
     * made. Otherwise the request goes to the endpoint the file name selects;
     * a success stores the result, its download and the success message and
     * asks for the history to be fetched again; a failure stores the error
     * message and keeps the previous result. Either way loading ends false.
     */
    method HandleConvert(reply: Reply) returns (request: Option<Endpoint>, refreshHistory: bool)
      requires Valid()
      modifies this
      ensures Valid()
      ensures old(file).None? || old(validationStatus) != StatusValid ==>
        && request.None? && !refreshHistory
        && file == old(file) && validationStatus == old(validationStatus)
        && serverError == old(serverError) && successMessage == old(successMessage)
        && convertedData == old(convertedData) && downloadUrl == old(downloadUrl)
      ensures old(file).Some? && old(validationStatus) == StatusValid ==>
        request == Some(EndpointFor(old(file).value.name))
      ensures request.Some? ==> match Outcome(old(file).value.name, reply)
        case Success((converted, artifact)) =>
          && convertedData == Some(converted) && downloadUrl == Some(artifact)
          && successMessage == Some(Completed) && serverError.None? && refreshHistory
        case Failure(message) =>
          && serverError == Some(message) && successMessage.None? && !refreshHistory
          && convertedData == old(convertedData) && downloadUrl == old(downloadUrl)
      ensures file == old(file) && validationStatus == old(validationStatus)
      ensures validationError == old(validationError) && previewData == old(previewData)
      ensures !loading
    {
      if file.None? || validationStatus != StatusValid {
        return None, false;
      }
      var name := file.value.name;
      loading := true;
      serverError := None;
      successMessage := None;
      request := Some(EndpointFor(name));
      match Outcome(name, reply) {
        case Success((converted, artifact)) =>
          OutcomeFormats(name, reply);
          convertedData := Some(converted);
          downloadUrl := Some(artifact);
          successMessage := Some(Completed);
          refreshHistory := true;
        case Failure(message) =>
          serverError := Some(message);
          refreshHistory := false;
      }
      loading := false;
    }

    /** The five-second timer after a success: the success message goes away. */
    method SuccessMessageExpired()
      requires Valid()
      modifies this`successMessage
      ensures Valid()
      ensures successMessage.None?
    {
      successMessage := None;
    }

    /**
     * `handleDownload`: nothing without a download link; otherwise the
     * artifact under the name `converted.json` for a `.csv` file and
     * `converted.csv` for any other, the extension always agreeing with the
     * artifact's MIME type.
     */
    method HandleDownload() returns (d: Option<Download>)
      requires Valid()
      ensures d.None? <==> downloadUrl.None?
      ensures d.Some? ==> file.Some? && d.value == Download(DownloadName(file.value.name), downloadUrl.value)
      ensures d.Some? ==> (d.value.fileName == "converted.json" <==> MimeType(d.value.artifact) == "application/json")
      ensures d.Some? ==> (d.value.fileName == "converted.csv" <==> MimeType(d.value.artifact) == "text/csv")
    {
      if downloadUrl.None? {
        return None;
      }
      d := Some(Download(DownloadName(file.value.name), downloadUrl.value));
    }
  }
}
